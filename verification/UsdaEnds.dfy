/** Where a layer may end: missing closing braces, counted on the text, and what may stand behind
    the last token. */
module UsdaEnds {
  import opened Options
  import opened Texts
  import opened UsdaSyntax
  import opened UsdaMeaning

  // ----- missing braces, counted --------------------------------------------------------------

  /** The closing braces that a part lacks, its own among them. */
  function Missing(b: Body): nat {
    match b case Closed => 0 case Cut => 1 case More(head, tail) => StmtMissing(head) + Missing(tail)
  }

  function StmtMissing(s: Stmt): nat {
    match s case Child(p) => Missing(p.body) case VariantSet(_, vs) => VariantsMissing(vs) case _ => 0
  }

  function VariantsMissing(vs: Variants): nat {
    match vs
    case AllClosed => 0
    case AllCut => 1
    case Variant(_, _, body, rest) => Missing(body) + VariantsMissing(rest)
  }

  function Count(ts: seq<Token>, t: Token): nat { multiset(ts)[t] }

  lemma CountJoined(a: seq<Token>, b: seq<Token>, t: Token)
    ensures Count(a + b, t) == Count(a, t) + Count(b, t)
  {
  }

  lemma Count1(a: Token, t: Token)
    ensures Count([a], t) == if a == t then 1 else 0
  {
  }

  /** A head has one brace. */
  lemma HeadBraces(p: Prim)
    ensures Count(HeadText(p), Open) == 1 && Count(HeadText(p), Close) == 0
  {
  }

  lemma VariantHeadBraces(name: string, metas: Option<string>)
    ensures Count(VariantHeadText(name, metas), Open) == 1 && Count(VariantHeadText(name, metas), Close) == 0
  {
  }

  /** Behind its opening brace a body has as many more closing braces than opening ones as it
      lacks fewer than one. */
  lemma {:induction false} BodyBraces(b: Body)
    ensures Count(BodyText(b), Open) + 1 == Count(BodyText(b), Close) + Missing(b)
    decreases b
  {
    hide Count;
    match b
    case Closed =>
      Count1(Close, Open);
      Count1(Close, Close);
    case Cut => assert Count([], Open) == 0 == Count([], Close) by { CountNone(); }
    case More(head, tail) =>
      StmtBraces(head);
      BodyBraces(tail);
      CountJoined(StmtText(head), BodyText(tail), Open);
      CountJoined(StmtText(head), BodyText(tail), Close);
  }

  lemma CountNone()
    ensures Count([], Open) == 0 == Count([], Close)
  {
  }

  lemma {:induction false} StmtBraces(s: Stmt)
    ensures Count(StmtText(s), Open) == Count(StmtText(s), Close) + StmtMissing(s)
    decreases s
  {
    hide Count;
    match s
    case Child(p) =>
      hide HeadText, BodyText;
      HeadBraces(p);
      BodyBraces(p.body);
      CountJoined(HeadText(p), BodyText(p.body), Open);
      CountJoined(HeadText(p), BodyText(p.body), Close);
    case VariantSet(name, vs) =>
      hide VariantsText;
      SetHeadBraces(name);
      VariantsBraces(vs);
      CountJoined(SetHeadText(name), VariantsText(vs), Open);
      CountJoined(SetHeadText(name), VariantsText(vs), Close);
    case _ =>
      Count1(StmtText(s)[0], Open);
      Count1(StmtText(s)[0], Close);
  }

  lemma SetHeadBraces(name: string)
    ensures Count(SetHeadText(name), Open) == 1 && Count(SetHeadText(name), Close) == 0
  {
  }

  lemma {:induction false} VariantsBraces(vs: Variants)
    ensures Count(VariantsText(vs), Open) + 1 == Count(VariantsText(vs), Close) + VariantsMissing(vs)
    decreases vs
  {
    hide Count;
    match vs
    case AllClosed =>
      Count1(Close, Open);
      Count1(Close, Close);
    case AllCut => CountNone();
    case Variant(name, metas, body, rest) =>
      hide VariantHeadText, BodyText;
      var h := VariantHeadText(name, metas);
      VariantHeadBraces(name, metas);
      BodyBraces(body);
      VariantsBraces(rest);
      CountJoined(h + BodyText(body), VariantsText(rest), Open);
      CountJoined(h + BodyText(body), VariantsText(rest), Close);
      CountJoined(h, BodyText(body), Open);
      CountJoined(h, BodyText(body), Close);
  }

  /** What ends as it may lacks a brace if and only if it is cut at its own end. */
  lemma {:induction false} CutExactly(b: Body, place: Place, here: Rest, rest: Rest)
    requires BodyEnds(b, place, here, rest)
    ensures BodyCut(b) <==> Missing(b) > 0
    decreases b
  {
    match b
    case More(head, tail) =>
      var next := if tail.Cut? then rest else Tokens;
      StmtCutExactly(head, next);
      CutExactly(tail, place, LeftBehind(head, next, place), rest);
      if !tail.Cut? {
        StmtCutNeedsEnd(head);
      }
    case _ =>
  }

  lemma {:induction false} StmtCutExactly(s: Stmt, rest: Rest)
    requires StmtEnds(s, rest)
    ensures StmtCut(s) <==> StmtMissing(s) > 0
    decreases s
  {
    match s
    case Child(p) => CutExactly(p.body, InPrim, Skipped(rest, InPrim), rest);
    case VariantSet(_, vs) => VariantsCutExactly(vs, rest);
    case _ =>
  }

  lemma {:induction false} VariantsCutExactly(vs: Variants, rest: Rest)
    requires VariantsEnd(vs, rest)
    ensures VariantsCut(vs) <==> VariantsMissing(vs) > 0
    decreases vs
  {
    match vs
    case Variant(_, _, body, more) =>
      var next := if more.AllCut? then rest else Tokens;
      CutExactly(body, InVariant, next, next);
      VariantsCutExactly(more, rest);
      if !more.AllCut? {
        CutNeedsEnd(body, InVariant);
      }
    case _ =>
  }

  /** A prim that is read lacks closing braces if and only if its text has fewer of them than
      opening ones, and it lacks as many as the difference. */
  lemma UnclosedPrim(ts: seq<Token>, p: nat)
    requires p <= |ts| && ReadPrim(ts, p).Some?
    ensures var prim := ReadPrim(ts, p).value.0; var t := PrimText(prim);
      && StandsAt(ts, p, t)
      && Count(t, Open) == Count(t, Close) + Missing(prim.body)
      && (BodyCut(prim.body) <==> Count(t, Open) > Count(t, Close))
  {
    hide StmtEnds, PrimText;
    var (prim, q) := ReadPrim(ts, p).value;
    ReadsExactlyTexts(ts, p, q, prim);
    StmtBraces(Child(prim));
    StmtCutExactly(Child(prim), RestAt(ts, p + |PrimText(prim)|));
  }

  // ----- a whole layer --------------------------------------------------------------------------

  /** A layer is read exactly when it is the text of its statements, with a trail behind it or
      not, and may end as it does. */
  lemma LayerExactly(ts: seq<Token>, b: Body)
    ensures ReadLayer(ts, 0) == Some(b) <==>
      var n := |BodyText(b)|;
      && IsLayer(b) && StandsAt(ts, 0, BodyText(b)) && !RestAt(ts, n).Tokens?
      && BodyEnds(b, InLayer, Nothing, RestAt(ts, n))
  {
    hide BodyEnds, BodyText, ReadBody, BodyCut;
    var p, n := Past(ts, 0, InLayer), |BodyText(b)|;
    LayerCut(b);
    BodyBehind(ts, 0, p, InLayer, b, |ts|, RestAt(ts, p));
    if StandsAt(ts, 0, BodyText(b)) {
      TailRest(ts, 0, b);
      HereMatters(b, InLayer, RestAt(ts, p), Nothing, RestAt(ts, n));
      if IsLayer(b) && BodyEnds(b, InLayer, Nothing, RestAt(ts, n)) && RestAt(ts, n).Tokens? {
        HereMatters(b, InLayer, Nothing, Tokens, Tokens);
        CutNeedsEnd(b, InLayer);
      }
    }
    if ReadLayer(ts, 0) == Some(b) {
      BodySound(ts, p, InLayer);
    }
    if IsLayer(b) && BodyRead(ts, p, InLayer, b, |ts|) {
      BodyComplete(ts, p, InLayer, b, |ts|);
    }
  }

  lemma {:induction false} LayerCut(b: Body)
    ensures IsLayer(b) ==> BodyCut(b)
    decreases b
  {
    if b.More? {
      LayerCut(b.tail);
    }
  }

  /** The last statement lacks a closing brace. */
  predicate EndsUnclosed(b: Body) {
    b.More? && if b.tail.More? then EndsUnclosed(b.tail) else StmtCut(b.head)
  }

  lemma {:induction false} UnclosedMissing(b: Body, here: Rest, rest: Rest)
    requires IsLayer(b) && BodyEnds(b, InLayer, here, rest)
    ensures Missing(b) > 0 && (EndsUnclosed(b) <==> Missing(b) > 1)
    decreases b
  {
    if b.More? {
      var next := if b.tail.Cut? then rest else Tokens;
      StmtCutExactly(b.head, next);
      UnclosedMissing(b.tail, LeftBehind(b.head, next, InLayer), rest);
      if !b.tail.Cut? {
        StmtCutNeedsEnd(b.head);
      }
    }
  }

  /** An accepted layer is unclosed if and only if it has more opening than closing braces. */
  lemma UnclosedLayer(ts: seq<Token>)
    requires ReadLayer(ts, 0).Some?
    ensures var b := ReadLayer(ts, 0).value;
      && Count(ts, Open) + 1 == Count(ts, Close) + Missing(b)
      && (EndsUnclosed(b) <==> Count(ts, Open) > Count(ts, Close))
  {
    hide ReadLayer, BodyEnds, BodyText, IsLayer, EndsUnclosed, Missing, Count;
    var b := ReadLayer(ts, 0).value;
    var n := |BodyText(b)|;
    LayerExactly(ts, b);
    UnclosedMissing(b, Nothing, RestAt(ts, n));
    BodyBraces(b);
    assert ts == BodyText(b) + ts[n..];
    CountJoined(BodyText(b), ts[n..], Open);
    CountJoined(BodyText(b), ts[n..], Close);
    CountNone();
    if n < |ts| {
      assert ts[n..] == [ts[n]];
      Count1(ts[n], Open);
      Count1(ts[n], Close);
    } else {
      assert ts[n..] == [];
    }
  }

  // ----- the trail ------------------------------------------------------------------------------

  /** The innermost unclosed block lets the trail pass: a prim, behind its opening brace and behind
      a child prim, unless it has comments, and behind a statement that leaves its line open
      only with a line end; a variant only behind a child prim, a property or a reorder; neither
      behind a variant set; the set itself always. */
  predicate BodyAdmits(b: Body, place: Place, trail: Trail) {
    match b
    case Closed => false
    case Cut => !place.InVariant? && Passes(place, trail)
    case More(head, tail) =>
      if !tail.Cut? then BodyAdmits(tail, place, trail)
      else if StmtCut(head) then StmtAdmits(head, trail)
      else
        && !head.VariantSet? && Passes(place, trail)
        && (place.InPrim? && !head.Child? && !head.endsLine ==> !trail.Blanks?)
  }

  predicate StmtAdmits(s: Stmt, trail: Trail) {
    match s
    case Child(p) => BodyAdmits(p.body, InPrim, trail)
    case VariantSet(_, vs) => VariantsAdmit(vs, trail)
    case _ => false
  }

  predicate VariantsAdmit(vs: Variants, trail: Trail) {
    match vs
    case AllClosed => false
    case AllCut => true
    case Variant(_, _, body, more) =>
      if !more.AllCut? then VariantsAdmit(more, trail)
      else BodyCut(body) ==> BodyAdmits(body, InVariant, trail)
  }

  /** What stands in front of a trail when nothing of a body comes. */
  function HereFor(place: Place, trail: Trail): Rest {
    if place.InVariant? then Only(trail) else Skipped(Only(trail), place)
  }

  /** A part that is closed may end before anything. */
  lemma {:induction false} ClosedEnds(b: Body, place: Place, here: Rest, rest: Rest, other: Rest)
    requires !BodyCut(b)
    ensures BodyEnds(b, place, here, rest) <==> BodyEnds(b, place, here, other)
    decreases b
  {
    if b.More? && b.tail.More? {
      ClosedEnds(b.tail, place, LeftBehind(b.head, Tokens, place), rest, other);
    }
  }

  lemma {:induction false} StmtClosedEnds(s: Stmt, rest: Rest, other: Rest)
    requires !StmtCut(s)
    ensures StmtEnds(s, rest) <==> StmtEnds(s, other)
    decreases s
  {
    match s
    case Child(p) =>
      ClosedEnds(p.body, InPrim, Skipped(rest, InPrim), rest, other);
      HereMatters(p.body, InPrim, Skipped(rest, InPrim), Skipped(other, InPrim), other);
    case VariantSet(_, vs) => VariantsClosedEnd(vs, rest, other);
    case _ =>
  }

  lemma {:induction false} VariantsClosedEnd(vs: Variants, rest: Rest, other: Rest)
    requires !VariantsCut(vs)
    ensures VariantsEnd(vs, rest) <==> VariantsEnd(vs, other)
    decreases vs
  {
    if vs.Variant? {
      VariantsClosedEnd(vs.rest, rest, other);
    }
  }

  /** A cut part that may end before nothing may end before a trail if and only if its innermost
      unclosed block lets it pass. */
  lemma {:induction false} InnermostDecides(b: Body, place: Place, trail: Trail)
    requires BodyCut(b) && BodyEnds(b, place, Nothing, Nothing)
    ensures BodyEnds(b, place, HereFor(place, trail), Only(trail)) <==> BodyAdmits(b, place, trail)
    decreases b
  {
    match b
    case Cut =>
    case More(head, tail) =>
      if !tail.Cut? {
        InnermostDecides(tail, place, trail);
        HereMatters(tail, place, LeftBehind(head, Tokens, place), Nothing, Nothing);
        HereMatters(tail, place, LeftBehind(head, Tokens, place), HereFor(place, trail), Only(trail));
      } else if StmtCut(head) {
        StmtInnermost(head, trail);
      } else {
        StmtClosedEnds(head, Nothing, Only(trail));
      }
  }

  lemma {:induction false} StmtInnermost(s: Stmt, trail: Trail)
    requires StmtCut(s) && StmtEnds(s, Nothing)
    ensures StmtEnds(s, Only(trail)) <==> StmtAdmits(s, trail)
    decreases s
  {
    match s
    case Child(p) => InnermostDecides(p.body, InPrim, trail);
    case VariantSet(_, vs) => VariantsInnermost(vs, trail);
  }

  lemma {:induction false} VariantsInnermost(vs: Variants, trail: Trail)
    requires VariantsCut(vs) && VariantsEnd(vs, Nothing)
    ensures VariantsEnd(vs, Only(trail)) <==> VariantsAdmit(vs, trail)
    decreases vs
  {
    match vs
    case AllCut =>
    case Variant(_, _, body, more) =>
      if !more.AllCut? {
        VariantsInnermost(more, trail);
      } else if BodyCut(body) {
        InnermostDecides(body, InVariant, trail);
      } else {
        ClosedEnds(body, InVariant, Nothing, Nothing, Only(trail));
        HereMatters(body, InVariant, Nothing, Only(trail), Only(trail));
      }
  }

  lemma {:induction false} ClosedLayerAdmits(b: Body, trail: Trail)
    requires IsLayer(b) && !EndsUnclosed(b)
    ensures BodyAdmits(b, InLayer, trail)
    decreases b
  {
    if b.More? && b.tail.More? {
      ClosedLayerAdmits(b.tail, trail);
    }
  }

  /** Before nothing everything may end that may end before a trail. */
  lemma {:induction false} TrailOnlyHurts(b: Body, place: Place, here: Rest, trail: Trail)
    requires BodyEnds(b, place, here, Only(trail))
    ensures BodyEnds(b, place, Nothing, Nothing)
    decreases b
  {
    if b.More? {
      var next := if b.tail.Cut? then Only(trail) else Tokens;
      StmtTrailOnlyHurts(b.head, trail);
      TrailOnlyHurts(b.tail, place, LeftBehind(b.head, next, place), trail);
      if b.tail.More? {
        HereMatters(b.tail, place, Nothing, LeftBehind(b.head, Tokens, place), Nothing);
      }
    }
  }

  lemma {:induction false} StmtTrailOnlyHurts(s: Stmt, trail: Trail)
    ensures StmtEnds(s, Only(trail)) ==> StmtEnds(s, Nothing)
    decreases s
  {
    match s
    case Child(p) =>
      if StmtEnds(s, Only(trail)) {
        TrailOnlyHurts(p.body, InPrim, Skipped(Only(trail), InPrim), trail);
      }
    case VariantSet(_, vs) => VariantsTrailOnlyHurts(vs, trail);
    case _ =>
  }

  lemma {:induction false} VariantsTrailOnlyHurts(vs: Variants, trail: Trail)
    ensures VariantsEnd(vs, Only(trail)) ==> VariantsEnd(vs, Nothing)
    decreases vs
  {
    if vs.Variant? && VariantsEnd(vs, Only(trail)) {
      if vs.rest.AllCut? {
        TrailOnlyHurts(vs.body, InVariant, Only(trail), trail);
      }
      VariantsTrailOnlyHurts(vs.rest, trail);
    }
  }

  ghost predicate NoTrail(t: seq<Token>) { forall x :: x in t ==> !x.Behind? }

  lemma {:induction false} TextHasNoTrail(b: Body)
    ensures NoTrail(BodyText(b))
    decreases b
  {
    if b.More? {
      StmtHasNoTrail(b.head);
      TextHasNoTrail(b.tail);
    }
  }

  lemma {:induction false} StmtHasNoTrail(s: Stmt)
    ensures NoTrail(StmtText(s))
    decreases s
  {
    match s
    case Child(p) => TextHasNoTrail(p.body);
    case VariantSet(_, vs) => VariantsHaveNoTrail(vs);
    case _ =>
  }

  lemma {:induction false} VariantsHaveNoTrail(vs: Variants)
    ensures NoTrail(VariantsText(vs))
    decreases vs
  {
    if vs.Variant? {
      TextHasNoTrail(vs.body);
      VariantsHaveNoTrail(vs.rest);
    }
  }

  lemma LastIsTrail(t: seq<Token>, trail: Trail, v: seq<Token>)
    requires |v| == |t| + 1 && StandsAt(t + [Behind(trail)], 0, v)
    ensures !NoTrail(v)
  {
    assert v[|t|] in v;
  }

  lemma NoTrailAt(t: seq<Token>, n: nat)
    requires NoTrail(t) && n <= |t|
    ensures RestAt(t, n) == if n == |t| then Nothing else Tokens
  {
    if n < |t| {
      assert t[n] in t;
    }
  }

  /** What is read before a trail is read without it. */
  lemma ReadWithoutTrail(t: seq<Token>, trail: Trail, b: Body)
    requires ReadLayer(t + [Behind(trail)], 0) == Some(b) && ReadLayer(t, 0).Some?
    ensures t == BodyText(b) && ReadLayer(t, 0) == Some(b)
  {
    hide ReadLayer, BodyText, BodyEnds, IsLayer;
    var u := t + [Behind(trail)];
    var n := |BodyText(b)|;
    LayerExactly(u, b);
    TextHasNoTrail(b);
    if n == |u| {
      LastIsTrail(t, trail, BodyText(b));
    }
    assert BodyText(b) == u[..n] == t;
    TrailOnlyHurts(b, InLayer, Nothing, trail);
    LayerExactly(t, b);
  }

  /** A layer that is read with nothing behind its last token is read with a trail if and only if
      its innermost unclosed block lets it pass; a closed layer is read with any. */
  lemma TrailVerdict(t: seq<Token>, trail: Trail)
    requires ReadLayer(t, 0).Some? && NoTrail(t)
    ensures var b := ReadLayer(t, 0).value; var r := ReadLayer(t + [Behind(trail)], 0);
      && r == (if BodyAdmits(b, InLayer, trail) then Some(b) else None)
      && (!EndsUnclosed(b) ==> r == Some(b))
  {
    hide ReadLayer, BodyText, BodyEnds, IsLayer, BodyAdmits, EndsUnclosed;
    var b, u := ReadLayer(t, 0).value, t + [Behind(trail)];
    LayerExactly(t, b);
    NoTrailAt(t, |BodyText(b)|);
    LayerExactly(u, b);
    LayerCut(b);
    InnermostDecides(b, InLayer, trail);
    if ReadLayer(u, 0).Some? {
      ReadWithoutTrail(t, trail, ReadLayer(u, 0).value);
    }
    if !EndsUnclosed(b) {
      ClosedLayerAdmits(b, trail);
    }
  }

  // ----- inputs -----------------------------------------------------------------------------------

  /** `def "A" {` and then a body. */
  function PrimA(b: Body): Body { More(Child(Prim(Def, None, "A", None, b)), Cut) }

  const HEAD_A := [Spec(Def), Quoted("A"), Open]

  lemma PrimARead(t: seq<Token>, b: Body, trail: Trail)
    requires t == HEAD_A + BodyText(b) && BodyEnds(PrimA(b), InLayer, Nothing, Nothing)
    ensures ReadLayer(t, 0) == Some(PrimA(b))
    ensures ReadLayer(t + [Behind(trail)], 0) == if BodyAdmits(PrimA(b), InLayer, trail) then Some(PrimA(b)) else None
  {
    hide BodyEnds, ReadLayer, BodyAdmits, BodyText, IsLayer;
    TextOfA(b);
    LayerExactly(t, PrimA(b));
    TextHasNoTrail(PrimA(b));
    TrailVerdict(t, trail);
  }

  lemma HeadOfA(b: Body)
    ensures HeadText(Prim(Def, None, "A", None, b)) == HEAD_A
  {
  }

  lemma TextOfA(b: Body)
    ensures BodyText(PrimA(b)) == HEAD_A + BodyText(b) && IsLayer(PrimA(b))
  {
    hide HeadText;
    HeadOfA(b);
    assert BodyText(PrimA(b)) == HEAD_A + BodyText(b) + [];
  }

  /** `def "A" {` is read with a line end behind it, and not with a comment. */
  lemma CutBehindOpen()
    ensures ReadLayer(HEAD_A, 0) == ReadLayer(HEAD_A + [Behind(Lines)], 0) == Some(PrimA(Cut))
    ensures ReadLayer(HEAD_A + [Behind(Comments)], 0) == None
  {
    hide ReadLayer;
    PrimARead(HEAD_A, Cut, Lines);
    PrimARead(HEAD_A, Cut, Comments);
  }

  /** `def "A" { variantSet "v" = { }` is read, and not with a line end behind it; without the
      last brace it is read in front of anything. */
  lemma CutBehindSet(trail: Trail)
    ensures var t := HEAD_A + SetHeadText("v");
      && ReadLayer(t + [Close], 0).Some? && ReadLayer(t + [Close] + [Behind(Lines)], 0) == None
      && ReadLayer(t, 0).Some? && ReadLayer(t + [Behind(trail)], 0).Some?
  {
    hide ReadLayer;
    var t := HEAD_A + SetHeadText("v");
    PrimARead(t + [Close], More(VariantSet("v", AllClosed), Cut), Lines);
    PrimARead(t, More(VariantSet("v", AllCut), Cut), trail);
  }

  /** `def "A" { variantSet "v" = { "x" {` is read, and not with a line end behind it. */
  lemma CutBehindVariant()
    ensures var t := HEAD_A + SetHeadText("v") + [Quoted("x"), Open];
      ReadLayer(t, 0).Some? && ReadLayer(t + [Behind(Lines)], 0) == None
  {
    hide ReadLayer;
    var t := HEAD_A + SetHeadText("v") + [Quoted("x"), Open];
    PrimARead(t, More(VariantSet("v", Variant("x", None, Cut, AllCut)), Cut), Lines);
  }

  /** `def "A" { p` is read, and with a line end behind it, but not with blanks only. */
  lemma CutBehindProperty()
    ensures var t := HEAD_A + [PropText("p", false)];
      ReadLayer(t, 0).Some? && ReadLayer(t + [Behind(Lines)], 0).Some? && ReadLayer(t + [Behind(Blanks)], 0) == None
  {
    hide ReadLayer;
    PrimARead(HEAD_A + [PropText("p", false)], More(Prop("p", false), Cut), Lines);
    PrimARead(HEAD_A + [PropText("p", false)], More(Prop("p", false), Cut), Blanks);
  }

  // ----- statements that share a line -----------------------------------------------------------

  /** Two properties on one line, and a closing brace. */
  const ONE_LINE := [PropText("p", false), PropText("q", true), Close]

  /** In a prim they are not read, in a variant they are. */
  lemma TwoOnOneLine()
    ensures ReadBody(ONE_LINE, 0, InPrim) == None
    ensures ReadBody(ONE_LINE, 0, InVariant) == Some((More(Prop("p", false), More(Prop("q", true), Closed)), 3))
  {
    assert ReadBody(ONE_LINE, 2, InVariant) == Some((Closed, 3));
    assert ReadBody(ONE_LINE, 1, InVariant) == Some((More(Prop("q", true), Closed), 3));
  }

  /** A statement that leaves its line open in front of another one: no prim is read from there,
      and a variant as behind it. */
  lemma SharedLine(ts: seq<Token>, p: nat)
    requires p + 1 < |ts| && (ts[p].PropText? || ts[p].ReorderText?) && !ts[p].endsLine
    requires ts[p + 1] != Close && !ts[p + 1].Behind?
    ensures ReadBody(ts, p, InPrim) == None
    ensures ReadStmt(ts, p).Some? && ReadBody(ts, p, InVariant) ==
      match ReadBody(ts, p + 1, InVariant)
      case Some(b) => Some((More(ReadStmt(ts, p).value.0, b.0), b.1))
      case None => None
  {
    assert ReadStmt(ts, p).value.1 == p + 1;
  }
}
