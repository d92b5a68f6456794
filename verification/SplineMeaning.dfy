/** What a spline text means, and exactly which splines have a text.  Numbers are reals; `narrow`
    is the conversion to the attribute's value type. */
module SplineMeaning {
  import opened Options
  import opened SplineSyntax

  datatype KnotData = KnotData(
    time: real, val: real, preValue: real, dual: bool,
    preWidth: real, preSlope: real, preAlgo: int, postWidth: real, postSlope: real, postAlgo: int, mode: int)

  datatype SplineData = SplineData(
    curveType: int, knots: seq<KnotData>, pre: int, post: int, preSlope: real, postSlope: real,
    hasLoop: bool, protoStart: real, protoEnd: real, preLoops: int, postLoops: int, offset: real)

  const DEFAULT := SplineData(0, [], 1, 1, 0.0, 0.0, false, 0.0, 0.0, 0, 0, 0.0)

  // ----- meaning ------------------------------------------------------------------------------

  function AlgoNumber(a: Algo): int {
    match a case NoAlgo => 0 case CustomAlgo => 1 case AutoEase => 2
  }

  /** A tangent given by its slope alone has width 1. */
  function Width(t: Tangent): real { t.width.GetOr(1.0) }

  function AlgoIn(t: Tangent): int { match t.algo case Some(a) => AlgoNumber(a) case None => 0 }

  /** Any word but `reset` and `oscillate` behind `loop` means `repeat`. */
  function ModeOf(x: Extrap): int {
    match x
    case XNone => 0
    case XHeld => 1
    case XLinear => 2
    case XSloped(_) => 3
    case XLoop(sub) => if sub == Some("reset") then 5 else if sub == Some("oscillate") then 6 else 4
  }

  function SlopeOf(x: Extrap): real { if x.XSloped? then x.slope else 0.0 }

  function InterpMode(i: Interp): int {
    match i case PNone => 0 case PHeld => 1 case PLinear => 2 case PCurve(_) => 3
  }

  function ApplySpec(k: KnotData, s: Spec): KnotData {
    match s
    case Pre(t) => k.(preWidth := Width(t), preSlope := t.slope, preAlgo := AlgoIn(t))
    case Post(PCurve(t)) => k.(mode := 3, postWidth := Width(t), postSlope := t.slope, postAlgo := AlgoIn(t))
    case Post(i) => k.(mode := InterpMode(i))
    case CustomData => k
  }

  function ApplySpecs(k: KnotData, ss: seq<Spec>): KnotData
    decreases |ss|
  {
    if ss == [] then k else ApplySpecs(ApplySpec(k, ss[0]), ss[1..])
  }

  /** `value` alone, or the value before the knot and then the value at it. */
  function NewKnot(narrow: real -> real, time: real, value: real, second: Option<real>): KnotData {
    KnotData(time, narrow(second.GetOr(value)), narrow(value), second.Some?, 0.0, 0.0, 0, 0.0, 0.0, 0, 3)
  }

  /** Conversion of a number to an integer, towards zero. */
  function Truncate(x: real): int { if x >= 0.0 then x.Floor else -(-x).Floor }

  function ApplyEntry(narrow: real -> real, d: SplineData, e: Entry): SplineData {
    match e
    case Curve(hermite) => d.(curveType := if hermite then 1 else 0)
    case Extrapolate(false, x) => d.(pre := ModeOf(x), preSlope := SlopeOf(x))
    case Extrapolate(true, x) => d.(post := ModeOf(x), postSlope := SlopeOf(x))
    case LoopParams(a, b, m, n, o, _) =>
      d.(hasLoop := true, protoStart := a, protoEnd := b, preLoops := Truncate(m), postLoops := Truncate(n),
          offset := o)
    case Knot(time, value, second, specs) =>
      d.(knots := d.knots + [ApplySpecs(NewKnot(narrow, time, value, second), specs)])
  }

  /** Later entries override earlier ones; knots add up. */
  function ApplyItems(narrow: real -> real, d: SplineData, items: Items): SplineData
    decreases items
  {
    match items
    case Next(_, e, _, rest) => ApplyItems(narrow, ApplyEntry(narrow, d, e), rest)
    case _ => d
  }

  // ----- which splines have a text ---------------------------------------------------------------

  ghost predicate Idempotent(narrow: real -> real) {
    forall x: real :: narrow(narrow(x)) == narrow(x)
  }

  predicate CanonicalKnot(narrow: real -> real, k: KnotData) {
    && 0 <= k.preAlgo <= 2 && 0 <= k.postAlgo <= 2 && 0 <= k.mode <= 3
    && (!k.dual ==> k.preValue == k.val)
    && narrow(k.val) == k.val && narrow(k.preValue) == k.preValue
  }

  predicate CanonicalHead(d: SplineData) {
    && 0 <= d.curveType <= 1 && 0 <= d.pre <= 6 && 0 <= d.post <= 6
    && (d.pre != 3 ==> d.preSlope == 0.0) && (d.post != 3 ==> d.postSlope == 0.0)
    && (!d.hasLoop ==>
          d.protoStart == 0.0 && d.protoEnd == 0.0 && d.preLoops == 0 && d.postLoops == 0 && d.offset == 0.0)
  }

  predicate Canonical(narrow: real -> real, d: SplineData) {
    CanonicalHead(d) && forall i :: 0 <= i < |d.knots| ==> CanonicalKnot(narrow, d.knots[i])
  }

  lemma {:induction false} SpecsCanonical(narrow: real -> real, k: KnotData, ss: seq<Spec>)
    requires CanonicalKnot(narrow, k)
    ensures CanonicalKnot(narrow, ApplySpecs(k, ss))
    decreases |ss|
  {
    if ss != [] {
      SpecsCanonical(narrow, ApplySpec(k, ss[0]), ss[1..]);
    }
  }

  lemma NewKnotCanonical(narrow: real -> real, time: real, value: real, second: Option<real>)
    requires Idempotent(narrow)
    ensures CanonicalKnot(narrow, NewKnot(narrow, time, value, second))
  {
    var last := second.GetOr(value);
    assert narrow(narrow(value)) == narrow(value) && narrow(narrow(last)) == narrow(last);
  }

  lemma EntryCanonical(narrow: real -> real, d: SplineData, e: Entry)
    requires Idempotent(narrow) && Canonical(narrow, d)
    ensures Canonical(narrow, ApplyEntry(narrow, d, e))
  {
    hide CanonicalKnot, Idempotent, NewKnot, ApplySpecs;
    if e.Knot? {
      NewKnotCanonical(narrow, e.time, e.value, e.second);
      SpecsCanonical(narrow, NewKnot(narrow, e.time, e.value, e.second), e.specs);
    }
  }

  lemma {:induction false} MeaningCanonical(narrow: real -> real, d: SplineData, items: Items)
    requires Idempotent(narrow) && Canonical(narrow, d)
    ensures Canonical(narrow, ApplyItems(narrow, d, items))
    decreases items
  {
    hide Canonical, ApplyEntry, Idempotent;
    if items.Next? {
      EntryCanonical(narrow, d, items.entry);
      MeaningCanonical(narrow, ApplyEntry(narrow, d, items.entry), items.rest);
    }
  }

  /** The shortest tangent with the given width, slope and algorithm. */
  function TangentFor(width: real, slope: real, algo: int): Tangent
    requires 0 <= algo <= 2
  {
    Tangent(if width == 1.0 then None else Some(width), slope, AlgoFor(algo))
  }

  function AlgoFor(algo: int): Option<Algo> {
    if algo == 1 then Some(CustomAlgo) else if algo == 2 then Some(AutoEase) else None
  }

  function ExtrapFor(mode: int, slope: real): Extrap {
    if mode == 0 then XNone else if mode == 2 then XLinear else if mode == 3 then XSloped(slope)
    else if mode == 4 then XLoop(Some("repeat")) else if mode == 5 then XLoop(Some("reset"))
    else if mode == 6 then XLoop(Some("oscillate")) else XHeld
  }

  function ModeFor(mode: int): Interp {
    if mode == 0 then PNone else if mode == 1 then PHeld else PLinear
  }

  /** An entry for any canonical knot: both tangents, then the interpolation mode if it is not
      the curve that the second tangent implies. */
  function KnotFor(narrow: real -> real, k: KnotData): (e: Entry)
    requires CanonicalKnot(narrow, k)
    ensures e.Knot?
  {
    Knot(k.time, k.preValue, if k.dual then Some(k.val) else None,
         [Pre(TangentFor(k.preWidth, k.preSlope, k.preAlgo)),
             Post(PCurve(TangentFor(k.postWidth, k.postSlope, k.postAlgo)))]
         + if k.mode == 3 then [] else [Post(ModeFor(k.mode))])
  }

  function KnotItems(narrow: real -> real, ks: seq<KnotData>): Items
    requires forall i :: 0 <= i < |ks| ==> CanonicalKnot(narrow, ks[i])
  {
    if ks == [] then End(LINE) else Next(LINE, KnotFor(narrow, ks[0]), true, KnotItems(narrow, ks[1..]))
  }

  function LoopItem(d: SplineData, rest: Items): Items {
    if d.hasLoop then
      var loop := LoopParams(d.protoStart, d.protoEnd, d.preLoops as real, d.postLoops as real, d.offset, true);
      Next(LINE, loop, true, rest)
    else rest
  }

  function ItemsFor(narrow: real -> real, d: SplineData): Items
    requires Canonical(narrow, d)
  {
    Next(LINE, Curve(d.curveType == 1), true,
      Next(LINE, Extrapolate(false, ExtrapFor(d.pre, d.preSlope)), true,
        Next(LINE, Extrapolate(true, ExtrapFor(d.post, d.postSlope)), true,
          LoopItem(d, KnotItems(narrow, d.knots)))))
  }

  lemma KnotBack(narrow: real -> real, d: SplineData, k: KnotData)
    requires CanonicalKnot(narrow, k)
    ensures ApplyEntry(narrow, d, KnotFor(narrow, k)) == d.(knots := d.knots + [k])
  {
    var e := KnotFor(narrow, k);
    var k0 := NewKnot(narrow, e.time, e.value, e.second);
    var k1 := ApplySpec(k0, e.specs[0]);
    var k2 := ApplySpec(k1, e.specs[1]);
    assert ApplySpecs(k0, e.specs) == ApplySpecs(k1, e.specs[1..]) == ApplySpecs(k2, e.specs[2..]);
    if k.mode != 3 {
      assert e.specs[2..] == [Post(ModeFor(k.mode))];
      assert ApplySpecs(k2, e.specs[2..]) == ApplySpecs(ApplySpec(k2, Post(ModeFor(k.mode))), []);
    }
  }

  lemma {:induction false} KnotsBack(narrow: real -> real, d: SplineData, ks: seq<KnotData>)
    requires forall i :: 0 <= i < |ks| ==> CanonicalKnot(narrow, ks[i])
    ensures ApplyItems(narrow, d, KnotItems(narrow, ks)) == d.(knots := d.knots + ks)
    ensures Whole(KnotItems(narrow, ks))
    decreases |ks|
  {
    hide CanonicalKnot, KnotFor, ApplyEntry;
    if ks == [] {
      assert d.knots + ks == d.knots;
    } else {
      KnotBack(narrow, d, ks[0]);
      var d1 := d.(knots := d.knots + [ks[0]]);
      KnotsBack(narrow, d1, ks[1..]);
      assert d1.knots + ks[1..] == d.knots + ks;
    }
  }

  /** The exact image of the grammar: a spline is the meaning of some text that the parser
      accepts if and only if it is canonical. */
  lemma ExactImage(narrow: real -> real, d: SplineData)
    requires Idempotent(narrow)
    ensures Canonical(narrow, d) <==> exists items :: Accepted(items) && ApplyItems(narrow, DEFAULT, items) == d
  {
    if Canonical(narrow, d) {
      var items := ItemsFor(narrow, d);
      ItemsForMeaning(narrow, d);
      assert Accepted(items) && ApplyItems(narrow, DEFAULT, items) == d;
    }
    forall items | Accepted(items) && ApplyItems(narrow, DEFAULT, items) == d ensures Canonical(narrow, d) {
      MeaningCanonical(narrow, DEFAULT, items);
    }
  }

  lemma ItemsForMeaning(narrow: real -> real, d: SplineData)
    requires Canonical(narrow, d)
    ensures ApplyItems(narrow, DEFAULT, ItemsFor(narrow, d)) == d && Whole(ItemsFor(narrow, d))
  {
    var knots := KnotItems(narrow, d.knots);
    var d3 := DEFAULT.(curveType := d.curveType, pre := d.pre, preSlope := d.preSlope, post := d.post,
        postSlope := d.postSlope);
    HeadMeaning(narrow, d);
    hide CanonicalKnot, KnotItems, LoopItem, Whole, ApplyItems, ItemsFor;
    KnotsBack(narrow, d.(knots := []), d.knots);
    assert [] + d.knots == d.knots;
    LoopItemMeaning(narrow, d3, d, knots);
  }

  /** The curve type and the extrapolations. */
  lemma HeadMeaning(narrow: real -> real, d: SplineData)
    requires Canonical(narrow, d)
    ensures var rest := LoopItem(d, KnotItems(narrow, d.knots));
      && ApplyItems(narrow, DEFAULT, ItemsFor(narrow, d))
         == ApplyItems(narrow, DEFAULT.(curveType := d.curveType, pre := d.pre, preSlope := d.preSlope, post := d.post,
                postSlope := d.postSlope), rest)
      && (Whole(rest) ==> Whole(ItemsFor(narrow, d)))
  {
    hide KnotItems, LoopItem, Whole, CanonicalKnot;
    var rest := LoopItem(d, KnotItems(narrow, d.knots));
    var d1 := DEFAULT.(curveType := d.curveType);
    var d2 := d1.(pre := d.pre, preSlope := d.preSlope);
    var d3 := d2.(post := d.post, postSlope := d.postSlope);
    var second := Next(LINE, Extrapolate(true, ExtrapFor(d.post, d.postSlope)), true, rest);
    var first := Next(LINE, Extrapolate(false, ExtrapFor(d.pre, d.preSlope)), true, second);
    assert ApplyItems(narrow, d2, second) == ApplyItems(narrow, d3, rest);
    assert ApplyItems(narrow, d1, first) == ApplyItems(narrow, d2, second);
    NextWhole(Extrapolate(true, ExtrapFor(d.post, d.postSlope)), rest);
    NextWhole(Extrapolate(false, ExtrapFor(d.pre, d.preSlope)), second);
    NextWhole(Curve(d.curveType == 1), first);
  }

  lemma NextWhole(e: Entry, rest: Items)
    ensures Whole(Next(LINE, e, true, rest)) <==> WellFormed(e) && Whole(rest)
  {
  }

  lemma LoopItemMeaning(narrow: real -> real, d3: SplineData, d: SplineData, knots: Items)
    requires CanonicalHead(d) && Whole(knots) && !d3.hasLoop
    requires d3 == DEFAULT.(curveType := d.curveType, pre := d.pre, preSlope := d.preSlope, post := d.post,
        postSlope := d.postSlope)
    ensures ApplyItems(narrow, d3, LoopItem(d, knots)) == ApplyItems(narrow, d.(knots := []), knots)
        && Whole(LoopItem(d, knots))
  {
  }
}
