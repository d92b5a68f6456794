/** ParseSplineValue: a cursor over the tokens and the spline that the entries fill in. */
module SplineParser {
  import opened SplineSyntax
  import opened SplineMeaning

  datatype ValueType = Double | Float | Half | Other

  /** A loop that started at `p0` with spline `d0` and has come to `p` with `d` is on its way to
      the same result. */
  ghost predicate Resumes(narrow: real -> real, ts: seq<Token>, p0: nat, d0: SplineData, p: nat, d: SplineData)
    requires p0 <= |ts| && p <= |ts|
  {
    match (ReadItems(ts, p0), ReadItems(ts, p))
    case (Some(x), Some(y)) => x.1 == y.1 && ApplyItems(narrow, d0, x.0) == ApplyItems(narrow, d, y.0)
    case (None, None) => true
    case _ => false
  }

  lemma ResumeGap(narrow: real -> real, ts: seq<Token>, p0: nat, d0: SplineData, p: nat, d: SplineData)
    requires p0 <= |ts| && p <= |ts| && Resumes(narrow, ts, p0, d0, p, d)
    ensures Resumes(narrow, ts, p0, d0, SkipGap(ts, p), d)
  {
    hide ReadEntry, ApplyEntry;
    var q := SkipGap(ts, p);
    assert SkipGap(ts, q) == q;
  }

  lemma ResumeEntry(narrow: real -> real, ts: seq<Token>, p0: nat, d0: SplineData, p: nat, d: SplineData)
    requires p0 <= |ts| && p < |ts| && !IsGap(ts[p]) && ts[p] != Sym('}') && Resumes(narrow, ts, p0, d0, p, d)
    ensures match ReadEntry(ts, p)
      case Some(e) =>
        Resumes(narrow, ts, p0, d0, if SymAt(ts, e.1, ',') then e.1 + 1 else e.1, ApplyEntry(narrow, d, e.0))
      case None => ReadItems(ts, p0).None?
  {
    hide ReadEntry, ApplyEntry;
    assert SkipGap(ts, p) == p && ts[p..p] == [];
  }

  lemma ResumeEnd(narrow: real -> real, ts: seq<Token>, p0: nat, d0: SplineData, p: nat, d: SplineData)
    requires p0 <= |ts| && SymAt(ts, p, '}') && Resumes(narrow, ts, p0, d0, p, d)
    ensures ReadItems(ts, p0).Some? && ReadItems(ts, p0).value.1 == p + 1
    ensures d == ApplyItems(narrow, d0, ReadItems(ts, p0).value.0)
  {
  }

  lemma ResumeNothing(narrow: real -> real, ts: seq<Token>, p0: nat, d0: SplineData, d: SplineData)
    requires p0 <= |ts| && !BehindDict(ts, |ts|) && Resumes(narrow, ts, p0, d0, |ts|, d)
    ensures ReadItems(ts, p0).None?
  {
  }

  lemma ResumeShared(narrow: real -> real, ts: seq<Token>, p0: nat, d0: SplineData, p: nat, d: SplineData)
    requires p0 <= |ts| && BehindDict(ts, p) && Resumes(narrow, ts, p0, d0, p, d)
    ensures ReadItems(ts, p0).Some? && ReadItems(ts, p0).value.1 == p
    ensures d == ApplyItems(narrow, d0, ReadItems(ts, p0).value.0)
  {
  }

  ghost predicate KnotResumes(ts: seq<Token>, p0: nat, k0: KnotData, p: nat, k: KnotData)
    requires p0 <= |ts| && p <= |ts|
  {
    match (ReadSpecs(ts, p0), ReadSpecs(ts, p))
    case (Some(x), Some(y)) => x.1 == y.1 && ApplySpecs(k0, x.0) == ApplySpecs(k, y.0)
    case (None, None) => true
    case _ => false
  }

  lemma KnotResumeSpec(ts: seq<Token>, p0: nat, k0: KnotData, p: nat, k: KnotData)
    requires p0 <= |ts| && SymAt(ts, p, ';') && KnotResumes(ts, p0, k0, p, k)
    ensures match ReadSpec(ts, p)
      case Some(s) => KnotResumes(ts, p0, k0, s.1, ApplySpec(k, s.0))
      case None => ReadSpecs(ts, p0).None?
  {
  }

  lemma KnotResumeEnd(ts: seq<Token>, p0: nat, k0: KnotData, p: nat, k: KnotData)
    requires p0 <= |ts| && p <= |ts| && !SymAt(ts, p, ';') && KnotResumes(ts, p0, k0, p, k)
    ensures ReadSpecs(ts, p0).Some? && ReadSpecs(ts, p0).value.1 == p
    ensures k == ApplySpecs(k0, ReadSpecs(ts, p0).value.0)
  {
  }

  class Parser {
    const ts: seq<Token>
    const narrow: real -> real  // conversion to the attribute's value type
    var pos: nat
    var data: SplineData

    ghost predicate Valid()
      reads this`pos
    {
      pos <= |ts|
    }

    constructor (ts: seq<Token>, narrow: real -> real)
      ensures Valid() && pos == 0 && data == DEFAULT && this.ts == ts && this.narrow == narrow
    {
      this.ts, this.narrow := ts, narrow;
      pos, data := 0, DEFAULT;
    }

    /** Consumes the symbol if it is next. */
    method Accept(c: char) returns (ok: bool)
      requires Valid()
      modifies this`pos
      ensures Valid()
      ensures ok == SymAt(ts, old(pos), c) && pos == if ok then old(pos) + 1 else old(pos)
    {
      ok := pos < |ts| && ts[pos] == Sym(c);
      if ok {
        pos := pos + 1;
      }
    }

    method Number() returns (ok: bool, x: real)
      requires Valid()
      modifies this`pos
      ensures Valid()
      ensures ok == NumAt(ts, old(pos))
      ensures pos == (if ok then old(pos) + 1 else old(pos)) && (ok ==> x == ts[old(pos)].num)
    {
      ok, x := pos < |ts| && ts[pos].Num?, 0.0;
      if ok {
        x, pos := ts[pos].num, pos + 1;
      }
    }

    method Identifier() returns (ok: bool, w: string)
      requires Valid()
      modifies this`pos
      ensures Valid()
      ensures ok == WordAt(ts, old(pos))
      ensures pos == (if ok then old(pos) + 1 else old(pos)) && (ok ==> w == ts[old(pos)].word)
    {
      ok, w := pos < |ts| && ts[pos].Word?, "";
      if ok {
        w, pos := ts[pos].word, pos + 1;
      }
    }

    method ParseAlgo() returns (ok: bool, algo: int)
      requires Valid()
      modifies this`pos
      ensures Valid()
      ensures ok == ReadAlgo(ts, old(pos)).Some?
      ensures ok ==> pos == old(pos) + 1 && algo == AlgoNumber(ReadAlgo(ts, old(pos)).value)
    {
      algo := 0;
      var w;
      ok, w := Identifier();
      if !ok { return; }
      if w == "none" {
        algo := 0;
      } else if w == "custom" {
        algo := 1;
      } else if w == "autoEase" {
        algo := 2;
      } else {
        ok := false;
      }
    }

    /** parseTangent: which shape it is shows after the first comma. */
    method ParseTangent() returns (ok: bool, width: real, slope: real, algo: int)
      requires Valid()
      modifies this`pos
      ensures Valid()
      ensures ok == ReadTangent(ts, old(pos)).Some?
      ensures ok ==> var t := ReadTangent(ts, old(pos)).value;
        pos == t.1 && width == Width(t.0) && slope == t.0.slope && algo == AlgoIn(t.0)
    {
      width, slope, algo := 1.0, 0.0, 0;
      ok := Accept('(');
      if !ok { return; }
      var a;
      ok, a := Number();
      if !ok { return; }
      var comma := Accept(',');
      if comma && pos < |ts| && ts[pos].Word? {
        slope := a;
        ok, algo := ParseAlgo();
        if !ok { return; }
      } else if comma {
        width := a;
        ok, slope := Number();
        if !ok { return; }
        comma := Accept(',');
        if comma {
          ok, algo := ParseAlgo();
          if !ok { return; }
        }
      } else {
        slope := a;
      }
      ok := Accept(')');
    }

    method ParseExtrap() returns (ok: bool, mode: int, slope: real)
      requires Valid()
      modifies this`pos
      ensures Valid()
      ensures ok == ReadExtrap(ts, old(pos)).Some?
      ensures ok ==> var x := ReadExtrap(ts, old(pos)).value; pos == x.1 && mode == ModeOf(x.0) && slope == SlopeOf(x.0)
    {
      mode, slope := 1, 0.0;
      var w;
      ok, w := Identifier();
      if !ok { return; }
      if w == "none" {
        mode := 0;
      } else if w == "held" {
        mode := 1;
      } else if w == "linear" {
        mode := 2;
      } else if w == "sloped" {
        mode := 3;
        ok := Accept('(');
        if !ok { return; }
        ok, slope := Number();
        if !ok { return; }
        ok := Accept(')');
      } else if w == "loop" {
        mode := 4;
        if pos < |ts| && ts[pos].Word? && StartsWithLetter(ts[pos].word) {
          var _, sub := Identifier();
          if sub == "reset" {
            mode := 5;
          } else if sub == "oscillate" {
            mode := 6;
          }
        }
      } else {
        ok := false;
      }
    }

    /** The five loop parameters; their closing parenthesis may be missing. */
    method ParseLoop() returns (ok: bool)
      requires Valid()
      modifies this`pos, this`data
      ensures Valid()
      ensures ok == LoopParamsAt(ts, old(pos))
      ensures ok ==> var p, closed := old(pos), SymAt(ts, old(pos) + 11, ')');
        pos == (if closed then p + 12 else p + 11)
        && data == ApplyEntry(narrow, old(data),
            LoopParams(ts[p + 2].num, ts[p + 4].num, ts[p + 6].num, ts[p + 8].num, ts[p + 10].num, closed))
      ensures !ok ==> data == old(data)
    {
      ok := Accept(':');
      if !ok { return; }
      ok := Accept('(');
      if !ok { return; }
      ghost var p := pos;
      var vals: seq<real> := [];
      while |vals| < 5
        invariant Valid() && |vals| <= 5 && data == old(data) && p == old(pos) + 2
        invariant SymAt(ts, old(pos), ':') && SymAt(ts, old(pos) + 1, '(')
        invariant |vals| < 5 ==> pos == p + 2 * |vals|
        invariant |vals| == 5 ==> pos == if SymAt(ts, p + 9, ')') then p + 10 else p + 9
        invariant forall i :: 0 <= i < |vals| ==> NumAt(ts, p + 2 * i) && ts[p + 2 * i].num == vals[i]
        invariant forall i :: 0 <= i < |vals| && i < 4 ==> SymAt(ts, p + 2 * i + 1, ',')
      {
        var x;
        ok, x := Number();
        if !ok {
          LoopBroken(ts, p, |vals|);
          return;
        }
        vals := vals + [x];
        if |vals| < 5 {
          ok := Accept(',');
          if !ok {
            LoopBroken(ts, p, |vals| - 1);
            return;
          }
        } else {
          var _ := Accept(')');
        }
      }
      ok := true;
      FiveParams(ts, p);
      assert vals[0] == ts[p + 2 * 0].num && vals[1] == ts[p + 2 * 1].num && vals[2] == ts[p + 2 * 2].num
          && vals[3] == ts[p + 2 * 3].num
        && vals[4] == ts[p + 2 * 4].num;
      data := data.(hasLoop := true, protoStart := vals[0], protoEnd := vals[1], preLoops := Truncate(vals[2]),
                    postLoops := Truncate(vals[3]), offset := vals[4]);
    }

    /** One `;` spec of a knot. */
    method ParseSpec(k: KnotData) returns (ok: bool, k': KnotData)
      requires Valid() && SymAt(ts, pos, ';')
      modifies this`pos
      ensures Valid()
      ensures ok == ReadSpec(ts, old(pos)).Some?
      ensures ok ==> pos == ReadSpec(ts, old(pos)).value.1 && k' == ApplySpec(k, ReadSpec(ts, old(pos)).value.0)
    {
      k' := k;
      pos := pos + 1;
      if pos < |ts| && ts[pos] == Dict {
        pos := pos + 1;
        return true, k;
      }
      var w;
      ok, w := Identifier();
      if !ok { return; }
      if w == "pre" {
        var width, slope, algo;
        ok, width, slope, algo := ParseTangent();
        k' := k'.(preWidth := width, preSlope := slope, preAlgo := algo);
      } else if w == "post" {
        var interp;
        ok, interp := Identifier();
        if !ok { return; }
        if interp == "none" {
          k' := k'.(mode := 0);
        } else if interp == "held" {
          k' := k'.(mode := 1);
        } else if interp == "linear" {
          k' := k'.(mode := 2);
        } else if interp == "curve" {
          var width, slope, algo;
          ok, width, slope, algo := ParseTangent();
          k' := k'.(mode := 3, postWidth := width, postSlope := slope, postAlgo := algo);
        } else {
          ok := false;
        }
      } else {
        ok := false;
      }
    }

    method ParseKnot() returns (ok: bool)
      requires Valid()
      modifies this`pos, this`data
      ensures Valid()
      ensures ok == ReadKnot(ts, old(pos)).Some?
      ensures ok ==> pos == ReadKnot(ts, old(pos)).value.1
                     && data == ApplyEntry(narrow, old(data), ReadKnot(ts, old(pos)).value.0)
      ensures !ok ==> data == old(data)
    {
      hide ReadSpecs, ReadSpec, ApplySpecs, ApplySpec;
      var time, v0;
      ok, time := Number();
      if !ok { return; }
      ok := Accept(':');
      if !ok { return; }
      ok, v0 := Number();
      if !ok { return; }
      var dual := Accept('&');
      var v1 := v0;
      if dual {
        ok, v1 := Number();
        if !ok { return; }
      }
      var k := KnotData(time, narrow(v1), narrow(v0), dual, 0.0, 0.0, 0, 0.0, 0.0, 0, 3);
      ghost var p0, k0 := pos, k;
      while pos < |ts| && ts[pos] == Sym(';')
        invariant Valid() && data == old(data) && p0 <= |ts| && KnotResumes(ts, p0, k0, pos, k)
        decreases |ts| - pos
      {
        KnotResumeSpec(ts, p0, k0, pos, k);
        ok, k := ParseSpec(k);
        if !ok { return; }
      }
      KnotResumeEnd(ts, p0, k0, pos, k);
      ok := true;
      data := data.(knots := data.knots + [k]);
    }

    /** One entry, without the comma behind it. */
    method ParseEntry() returns (ok: bool)
      requires Valid()
      modifies this`pos, this`data
      ensures Valid()
      ensures ok == ReadEntry(ts, old(pos)).Some?
      ensures ok ==> pos == ReadEntry(ts, old(pos)).value.1
                     && data == ApplyEntry(narrow, old(data), ReadEntry(ts, old(pos)).value.0)
    {
      hide ReadKnot, ReadExtrap, ModeOf, SlopeOf, LoopParamsAt;
      if pos >= |ts| || !ts[pos].Word? {
        KnotsAreKnots(ts, pos);
        ok := ParseKnot();
        return;
      }
      var ident;
      ok, ident := Identifier();
      if ident == "bezier" {
        data := data.(curveType := 0);
      } else if ident == "hermite" {
        data := data.(curveType := 1);
      } else if ident == "pre" || ident == "post" {
        ok := Accept(':');
        if !ok { return; }
        var mode, slope;
        ok, mode, slope := ParseExtrap();
        if !ok { return; }
        if ident == "pre" {
          data := data.(pre := mode, preSlope := slope);
        } else {
          data := data.(post := mode, postSlope := slope);
        }
      } else if ident == "loop" {
        ok := ParseLoop();
      } else {
        ok := false;
      }
    }

    /** ParseSplineValue.  It succeeds exactly where a spline text stands and the value type is
        a floating-point type; the spline then holds what the text means. */
    method Parse(typ: ValueType) returns (ok: bool)
      requires Valid()
      modifies this`pos, this`data
      ensures Valid()
      ensures ok <==> typ != Other && ReadSpline(ts, old(pos)).Some?
      ensures ok ==> pos == ReadSpline(ts, old(pos)).value.1
                     && data == ApplyItems(narrow, old(data), ReadSpline(ts, old(pos)).value.0)
    {
      hide ReadItems, ReadEntry, ApplyEntry, ApplyItems, Resumes;
      if typ == Other {
        return false;
      }
      ok := Accept('{');
      if !ok { return; }
      ghost var p0 := pos;
      ResumeStart(narrow, ts, pos, data);
      while true
        invariant Valid() && p0 <= |ts| && p0 == old(pos) + 1 && SymAt(ts, old(pos), '{')
        invariant Resumes(narrow, ts, p0, old(data), pos, data)
        decreases |ts| - pos
      {
        if BehindDict(ts, pos) {
          // the cursor has stepped back onto the brace of the customData
          ResumeShared(narrow, ts, p0, old(data), pos, data);
          return true;
        }
        ResumeGap(narrow, ts, p0, old(data), pos, data);
        SkipLines();
        if pos == |ts| {
          ResumeNothing(narrow, ts, p0, old(data), data);
          return false;
        }
        if ts[pos] == Sym('}') {
          ResumeEnd(narrow, ts, p0, old(data), pos, data);
          pos := pos + 1;
          return true;
        }
        ResumeEntry(narrow, ts, p0, old(data), pos, data);
        ok := ParseEntry();
        if !ok { return; }
        var _ := Accept(',');
      }
    }

    /** SkipCommentAndWhitespaceAndNewline, with semicolons allowed. */
    method SkipLines()
      requires Valid()
      modifies this`pos
      ensures Valid() && pos == SkipGap(ts, old(pos))
    {
      while pos < |ts| && IsGap(ts[pos])
        invariant Valid() && SkipGap(ts, pos) == SkipGap(ts, old(pos))
      {
        pos := pos + 1;
      }
    }
  }

  lemma ResumeStart(narrow: real -> real, ts: seq<Token>, p: nat, d: SplineData)
    requires p <= |ts|
    ensures Resumes(narrow, ts, p, d, p, d)
  {
  }

  /** The five parameters, with their commas, from the opening parenthesis on. */
  predicate ParamsAt(ts: seq<Token>, p: nat) {
    && (forall i :: 0 <= i < 5 ==> NumAt(ts, p + 2 * i))
    && (forall i :: 0 <= i < 4 ==> SymAt(ts, p + 2 * i + 1, ','))
  }

  lemma FiveParams(ts: seq<Token>, p: nat)
    requires 2 <= p && SymAt(ts, p - 2, ':') && SymAt(ts, p - 1, '(')
    ensures ParamsAt(ts, p) <==> LoopParamsAt(ts, p - 2)
  {
    if ParamsAt(ts, p) {
      assert NumAt(ts, p + 2 * 0) && NumAt(ts, p + 2 * 1) && NumAt(ts, p + 2 * 2) && NumAt(ts, p + 2 * 3)
          && NumAt(ts, p + 2 * 4);
      assert SymAt(ts, p + 2 * 0 + 1, ',') && SymAt(ts, p + 2 * 1 + 1, ',') && SymAt(ts, p + 2 * 2 + 1, ',')
          && SymAt(ts, p + 2 * 3 + 1, ',');
    }
  }

  lemma LoopBroken(ts: seq<Token>, p: nat, i: nat)
    requires 2 <= p && SymAt(ts, p - 2, ':') && SymAt(ts, p - 1, '(') && i < 5
    requires !NumAt(ts, p + 2 * i) || (i < 4 && !SymAt(ts, p + 2 * i + 1, ','))
    ensures !LoopParamsAt(ts, p - 2)
  {
  }
}
