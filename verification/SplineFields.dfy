/** What each entry of a spline text does to each field of the spline (src/ascii-parser-props.cc,
    ParseSplineValue; src/primvar.hh, SplineData). */
module SplineFields {
  import opened Options
  import opened SplineSyntax
  import opened SplineMeaning

  /** `{}` */
  lemma EmptySpline(narrow: real -> real, gap: Gap)
    ensures ApplyItems(narrow, DEFAULT, End(gap)) ==
      SplineData(curveType := 0, knots := [], pre := 1, post := 1, preSlope := 0.0, postSlope := 0.0, hasLoop := false,
                 protoStart := 0.0, protoEnd := 0.0, preLoops := 0, postLoops := 0, offset := 0.0)
  {
  }

  /** The number of an extrapolation mode.  A bare `loop`, and `loop` with any word but `reset` and
      `oscillate`, is `loop repeat`. */
  ghost predicate ModeIs(x: Extrap, mode: int) {
    match x
    case XNone => mode == 0
    case XHeld => mode == 1
    case XLinear => mode == 2
    case XSloped(_) => mode == 3
    case XLoop(None) => mode == 4
    case XLoop(Some(word)) =>
      && (word == "reset" ==> mode == 5) && (word == "oscillate" ==> mode == 6)
      && (word != "reset" && word != "oscillate" ==> mode == 4)
  }

  /** An extrapolation sets the mode and the slope of its side, 0 unless it is `sloped`, and nothing
      else. */
  lemma ExtrapolationSets(narrow: real -> real, d: SplineData, post: bool, x: Extrap) returns (mode: int)
    ensures ModeIs(x, mode)
    ensures var slope := match x case XSloped(s) => s case _ => 0.0;
      ApplyEntry(narrow, d, Extrapolate(post, x)) ==
        if post then d.(post := mode, postSlope := slope) else d.(pre := mode, preSlope := slope)
  {
    mode := ModeOf(x);
  }

  /** A `loop` with no sub-mode, or with any word but `reset` and `oscillate`, gives the same spline
      as `loop repeat`, on either side and whatever follows; right behind it the mode is 4. */
  lemma LoopIsRepeat(narrow: real -> real, d: SplineData, gap: Gap, post: bool, sub: Option<string>, comma: bool,
      rest: Items)
    requires sub != Some("reset") && sub != Some("oscillate")
    ensures ApplyItems(narrow, d, Next(gap, Extrapolate(post, XLoop(sub)), comma, rest)) ==
            ApplyItems(narrow, d, Next(gap, Extrapolate(post, XLoop(Some("repeat"))), comma, rest))
    ensures var e := ApplyItems(narrow, d, Next(gap, Extrapolate(post, XLoop(sub)), comma, End([])));
      if post then e.post == 4 && e.pre == d.pre else e.pre == 4 && e.post == d.post
  {
  }

  lemma CurveSets(narrow: real -> real, d: SplineData)
    ensures ApplyEntry(narrow, d, Curve(false)) == d.(curveType := 0)
    ensures ApplyEntry(narrow, d, Curve(true)) == d.(curveType := 1)
  {
  }

  /** `n` is `x` without its fraction. */
  predicate WithoutFraction(x: real, n: int) {
    if x >= 0.0 then n as real <= x < n as real + 1.0 else n as real - 1.0 < x <= n as real
  }

  /** The loop parameters in the order of the text; the two counts lose their fractions. */
  lemma LoopSets(narrow: real -> real, d: SplineData, a: real, b: real, m: real, n: real, o: real, closed: bool)
    ensures var e := ApplyEntry(narrow, d, LoopParams(a, b, m, n, o, closed));
      && e == d.(hasLoop := true, protoStart := a, protoEnd := b, preLoops := e.preLoops, postLoops := e.postLoops,
              offset := o)
      && WithoutFraction(m, e.preLoops) && WithoutFraction(n, e.postLoops)
  {
  }

  /** A knot without specs is added behind the others: one value stands for both, of two the first
      is the one before the knot; no tangents, and the mode is `curve`. */
  lemma BareKnotSets(narrow: real -> real, d: SplineData, time: real, value: real, second: Option<real>)
    ensures ApplyEntry(narrow, d, Knot(time, value, second, [])).knots == d.knots +
      [KnotData(time := time, val := narrow(match second case Some(v) => v case None => value),
                preValue := narrow(value), dual := second.Some?, preWidth := 0.0, preSlope := 0.0, preAlgo := 0,
                postWidth := 0.0, postSlope := 0.0, postAlgo := 0, mode := 3)]
    ensures ApplyEntry(narrow, d, Knot(time, value, second, [])).(knots := d.knots) == d
  {
  }

  ghost predicate AlgoIs(algo: Option<Algo>, n: int) {
    match algo
    case None => n == 0
    case Some(NoAlgo) => n == 0
    case Some(CustomAlgo) => n == 1
    case Some(AutoEase) => n == 2
  }

  /** Every further spec overrides the fields that it names: width 1 where the tangent gives only a
      slope, and with a mode that is not `curve` no tangent. */
  lemma SpecSets(narrow: real -> real, d: SplineData, time: real, value: real, second: Option<real>, ss: seq<Spec>,
      s: Spec)
    ensures var before := ApplyEntry(narrow, d, Knot(time, value, second, ss)).knots;
      var after := ApplyEntry(narrow, d, Knot(time, value, second, ss + [s])).knots;
      && |before| == |after| == |d.knots| + 1 && before[..|d.knots|] == after[..|d.knots|] == d.knots
      && var k, l := before[|d.knots|], after[|d.knots|];
      && match s
         case Pre(t) =>
           AlgoIs(t.algo, l.preAlgo)
           && l == k.(preWidth := match t.width case Some(w) => w case None => 1.0, preSlope := t.slope,
                      preAlgo := l.preAlgo)
         case Post(PCurve(t)) =>
           AlgoIs(t.algo, l.postAlgo)
           && l == k.(mode := 3, postWidth := match t.width case Some(w) => w case None => 1.0, postSlope := t.slope,
                      postAlgo := l.postAlgo)
         case Post(PNone) => l == k.(mode := 0)
         case Post(PHeld) => l == k.(mode := 1)
         case Post(PLinear) => l == k.(mode := 2)
         case CustomData => l == k
  {
    LastSpec(NewKnot(narrow, time, value, second), ss, s);
  }

  lemma {:induction false} LastSpec(k: KnotData, ss: seq<Spec>, s: Spec)
    ensures ApplySpecs(k, ss + [s]) == ApplySpec(ApplySpecs(k, ss), s)
    decreases |ss|
  {
    hide ApplySpec;
    if ss == [] {
      assert ss + [s] == [s];
      assert ApplySpecs(k, [s]) == ApplySpecs(ApplySpec(k, s), []);
    } else {
      assert (ss + [s])[1..] == ss[1..] + [s];
      LastSpec(ApplySpec(k, ss[0]), ss[1..], s);
    }
  }
}
