/** How far a statement loop has come: the results gathered so far, and why gathering the
    next statement keeps the final result. */
module UsdaSteps {
  import opened Options
  import opened UsdaSyntax
  import opened UsdaMeaning

  /** The parser's accumulators while it reads a body. */
  datatype Snap = Snap(next: nat, calls: seq<Call>, pending: seq<Reorder>, props: seq<string>, prims: seq<int>,
                       sets: map<string, SetContent>)

  ghost predicate AllAccepted(accept: Call -> bool, calls: seq<Call>) {
    forall i :: 0 <= i < |calls| ==> accept(calls[i])
  }

  lemma AllAcceptedAppend(accept: Call -> bool, a: seq<Call>, b: seq<Call>)
    ensures AllAccepted(accept, a + b) <==> AllAccepted(accept, a) && AllAccepted(accept, b)
  {
    if AllAccepted(accept, a + b) {
      assert forall i :: 0 <= i < |a| ==> (a + b)[i] == a[i];
      assert forall i :: 0 <= i < |b| ==> (a + b)[|a| + i] == b[i];
    }
  }

  /** A part is rejected by the depth limit, by a prim name, or by the construct callback. */
  ghost predicate GoodPrim(accept: Call -> bool, p: Prim, index: int, parent: int, path: string, next: nat, d: nat) {
    PrimDepth(p, d) <= MAX_DEPTH && PrimNamesValid(p) && AllAccepted(accept, PrimCalls(p, index, parent, path, next))
  }

  ghost predicate GoodBody(accept: Call -> bool, b: Body, o: Owner, path: string, next: nat, d: nat) {
    BodyDepth(b, d, o.OfVariant?) <= MAX_DEPTH && BodyNamesValid(b) && AllAccepted(accept, BodyCalls(b, o, path, next))
  }

  ghost predicate GoodVariants(accept: Call -> bool, vs: Variants, set_: int, path: string, next: nat, d: nat) {
    VariantsDepth(vs, d) <= MAX_DEPTH && VariantNamesValid(vs)
        && AllAccepted(accept, VariantCalls(vs, set_, path, next))
  }

  ghost predicate GoodLayer(accept: Call -> bool, b: Body, next: nat) {
    LayerDepth(b) <= MAX_DEPTH && BodyNamesValid(b) && AllAccepted(accept, BodyCalls(b, LAYER, ROOT, next))
  }

  /** The loop that reads the statements of an owner. */
  function PlaceOf(o: Owner): Place {
    if o.OfPrim? then InPrim else InVariant
  }

  function SetLevel(o: Owner, d: nat): nat {
    if o.OfVariant? then d + 1 else d
  }

  /** Reading `b` from `s`: the accumulators when the body ends. */
  function Finish(b: Body, o: Owner, path: string, s: Snap): Snap {
    Snap(s.next + BodyCount(b, o), s.calls + BodyCalls(b, o, path, s.next), s.pending + Reorders(b),
         s.props + Props(b), s.prims + ChildIndices(b, o, s.next), Sets(b, o, s.next, s.sets))
  }

  function AfterProp(s: Snap, p: string): Snap {
    s.(props := s.props + [p])
  }

  function AfterReorder(s: Snap, r: Reorder): Snap {
    s.(pending := s.pending + [r])
  }

  function AfterChild(s: Snap, p: Prim, o: Owner, path: string): Snap {
    s.(next := s.next + 1 + PrimCount(p),
       calls := s.calls + PrimCalls(p, s.next, ParentFor(o), path, s.next + 1),
       prims := s.prims + [s.next])
  }

  function AfterSet(s: Snap, name: string, vs: Variants, o: Owner, path: string): Snap {
    var first := s.next + FreshForSet(o);
    s.(next := first + VariantsCount(vs),
       calls := s.calls + VariantCalls(vs, SetIndex(o, s.next), path, first),
       pending := s.pending + VariantReorders(vs),
       sets := s.sets[name := SetContent(SetIndex(o, s.next), VariantMap(vs, SetIndex(o, s.next), first, map[]))])
  }

  lemma FinishProp(p: string, ends: bool, tail: Body, o: Owner, path: string, s: Snap)
    ensures Finish(More(Prop(p, ends), tail), o, path, s) == Finish(tail, o, path, AfterProp(s, p))
  {
  }

  lemma FinishReorder(r: Reorder, ends: bool, tail: Body, o: Owner, path: string, s: Snap)
    ensures Finish(More(ReorderStmt(r, ends), tail), o, path, s) == Finish(tail, o, path, AfterReorder(s, r))
  {
  }

  lemma FinishChild(p: Prim, tail: Body, o: Owner, path: string, s: Snap)
    ensures Finish(More(Child(p), tail), o, path, s) == Finish(tail, o, path, AfterChild(s, p, o, path))
  {
  }

  lemma SetUnfolds(name: string, vs: Variants, tail: Body, o: Owner, path: string, next: nat,
      acc: map<string, SetContent>)
    ensures var b := More(VariantSet(name, vs), tail);
      var first := next + FreshForSet(o); var after := first + VariantsCount(vs);
      && next + BodyCount(b, o) == after + BodyCount(tail, o)
      && BodyCalls(b, o, path, next)
          == VariantCalls(vs, SetIndex(o, next), path, first) + BodyCalls(tail, o, path, after)
      && Reorders(b) == VariantReorders(vs) + Reorders(tail)
      && Props(b) == Props(tail) && ChildIndices(b, o, next) == ChildIndices(tail, o, after)
      && Sets(b, o, next, acc)
         == Sets(tail, o, after,
                 acc[name := SetContent(SetIndex(o, next), VariantMap(vs, SetIndex(o, next), first, map[]))])
  {
    hide VariantCalls, VariantsCount, VariantReorders, VariantMap, SetIndex, FreshForSet;
  }

  lemma FinishSet(name: string, vs: Variants, tail: Body, o: Owner, path: string, s: Snap)
    ensures Finish(More(VariantSet(name, vs), tail), o, path, s)
        == Finish(tail, o, path, AfterSet(s, name, vs, o, path))
  {
    hide VariantCalls, VariantsCount, VariantReorders, VariantMap, SetIndex, FreshForSet, BodyCalls, Reorders, Props,
      ChildIndices, Sets, BodyCount;
    SetUnfolds(name, vs, tail, o, path, s.next, s.sets);
    var t := AfterSet(s, name, vs, o, path);
    var calls := VariantCalls(vs, SetIndex(o, s.next), path, s.next + FreshForSet(o));
    assert s.calls + (calls + BodyCalls(tail, o, path, t.next)) == t.calls + BodyCalls(tail, o, path, t.next);
    assert s.pending + (VariantReorders(vs) + Reorders(tail)) == t.pending + Reorders(tail);
  }

  /** A body is good exactly when its first statement and the rest are. */
  lemma GoodChildStep(accept: Call -> bool, p: Prim, tail: Body, o: Owner, path: string, next: nat, d: nat)
    ensures GoodBody(accept, More(Child(p), tail), o, path, next, d) <==>
            GoodPrim(accept, p, next, ParentFor(o), path, next + 1, d + 1)
            && GoodBody(accept, tail, o, path, next + 1 + PrimCount(p), d)
  {
    hide AllAccepted;
    AllAcceptedAppend(accept, PrimCalls(p, next, ParentFor(o), path, next + 1),
                      BodyCalls(tail, o, path, next + 1 + PrimCount(p)));
  }

  lemma GoodRootStep(accept: Call -> bool, p: Prim, tail: Body, next: nat)
    ensures GoodLayer(accept, More(Child(p), tail), next) <==>
            GoodPrim(accept, p, next, -1, ROOT, next + 1, 0) && GoodLayer(accept, tail, next + 1 + PrimCount(p))
  {
    hide AllAccepted;
    AllAcceptedAppend(accept, PrimCalls(p, next, -1, ROOT, next + 1),
        BodyCalls(tail, LAYER, ROOT, next + 1 + PrimCount(p)));
  }

  lemma GoodSetStep(accept: Call -> bool, name: string, vs: Variants, tail: Body, o: Owner, path: string, next: nat,
      d: nat)
    ensures GoodBody(accept, More(VariantSet(name, vs), tail), o, path, next, d) <==>
            GoodVariants(accept, vs, SetIndex(o, next), path, next + FreshForSet(o), SetLevel(o, d))
            && GoodBody(accept, tail, o, path, next + FreshForSet(o) + VariantsCount(vs), d)
  {
    hide AllAccepted, VariantsDepth, VariantNamesValid, BodyCalls, VariantCalls, VariantsCount,
      VariantReorders, VariantMap, SetIndex, FreshForSet;
    SetUnfolds(name, vs, tail, o, path, next, map[]);
    AllAcceptedAppend(accept, VariantCalls(vs, SetIndex(o, next), path, next + FreshForSet(o)),
                      BodyCalls(tail, o, path, next + FreshForSet(o) + VariantsCount(vs)));
  }

  lemma GoodPrimStep(accept: Call -> bool, p: Prim, index: int, parent: int, path: string, next: nat, d: nat)
    ensures GoodPrim(accept, p, index, parent, path, next, d) <==>
            d <= MAX_DEPTH && ValidName(p.name)
            && GoodBody(accept, p.body, OfPrim(index), JoinPath(path, p.name), next, d)
            && accept(PrimCall(p, index, parent, path, next))
  {
    AllAcceptedAppend(accept, BodyCalls(p.body, OfPrim(index), JoinPath(path, p.name), next),
                      [PrimCall(p, index, parent, path, next)]);
    assert AllAccepted(accept, [PrimCall(p, index, parent, path, next)])
        <==> accept(PrimCall(p, index, parent, path, next)) by {
      assert [PrimCall(p, index, parent, path, next)][0] == PrimCall(p, index, parent, path, next);
    }
  }

  /** No statement left: nothing more can go wrong except the level itself. */
  lemma GoodEmptyBody(accept: Call -> bool, b: Body, o: Owner, path: string, next: nat, d: nat)
    requires !b.More?
    ensures GoodBody(accept, b, o, path, next, d) <==> d <= MAX_DEPTH
  {
  }

  // ----- variants ---------------------------------------------------------------------------------

  datatype VSnap = VSnap(next: nat, calls: seq<Call>, pending: seq<Reorder>, variants: map<string, VariantContent>)

  function FinishVariants(vs: Variants, set_: int, path: string, s: VSnap): VSnap {
    VSnap(s.next + VariantsCount(vs), s.calls + VariantCalls(vs, set_, path, s.next),
          s.pending + VariantReorders(vs), VariantMap(vs, set_, s.next, s.variants))
  }

  /** A variant's body is read with fresh lists of properties, prims and sets. */
  function AfterVariant(s: VSnap, name: string, metas: Option<string>, body: Body, set_: int, path: string): VSnap {
    var o := OfVariant(set_, s.next);
    var b := Finish(body, o, path, Snap(s.next + 1, s.calls, s.pending, [], [], map[]));
    VSnap(b.next, b.calls, b.pending, s.variants[name := VariantContent(metas, b.prims, b.props, b.sets)])
  }

  lemma FinishVariant(name: string, metas: Option<string>, body: Body, rest: Variants, set_: int, path: string,
      s: VSnap)
    ensures FinishVariants(Variant(name, metas, body, rest), set_, path, s)
         == FinishVariants(rest, set_, path, AfterVariant(s, name, metas, body, set_, path))
  {
    hide BodyCalls, Reorders, BodyCount, ChildIndices, Props, Sets;
    var o := OfVariant(set_, s.next);
    var t := AfterVariant(s, name, metas, body, set_, path);
    BodyCountByKind(body, OfVariant(0, 0), o);
    assert s.calls + (BodyCalls(body, o, path, s.next + 1) + VariantCalls(rest, set_, path, t.next))
        == t.calls + VariantCalls(rest, set_, path, t.next);
    assert s.pending + (Reorders(body) + VariantReorders(rest)) == t.pending + VariantReorders(rest);
    assert [] + ChildIndices(body, o, s.next + 1) == ChildIndices(body, o, s.next + 1);
    assert [] + Props(body) == Props(body);
  }

  lemma GoodVariantStep(accept: Call -> bool, name: string, metas: Option<string>, body: Body, rest: Variants,
      set_: int, path: string, next: nat, d: nat)
    ensures GoodVariants(accept, Variant(name, metas, body, rest), set_, path, next, d) <==>
            GoodBody(accept, body, OfVariant(set_, next), path, next + 1, d)
            && GoodVariants(accept, rest, set_, path, next + 1 + BodyCount(body, OfVariant(set_, next)), d)
  {
    var o := OfVariant(set_, next);
    AllAcceptedAppend(accept, BodyCalls(body, o, path, next + 1),
                      VariantCalls(rest, set_, path, next + 1 + BodyCount(body, o)));
  }
}
