/** What the callbacks carry, read off the text: statements in their order, and the contents of
    variant sets; and what the limits on names and nesting come to. */
module UsdaContents {
  import opened Chars
  import opened Options
  import opened Texts
  import opened UsdaSyntax
  import opened UsdaMeaning
  import opened UsdaSteps
  import opened UsdaLaws

  // ----- statements in the order of the text ------------------------------------------------------

  /** The body without its child prims and, with `flat`, without its variant sets. */
  function Pruned(b: Body, flat: bool): Body
    decreases b
  {
    match b
    case More(Child(_), tail) => Pruned(tail, flat)
    case More(VariantSet(name, vs), tail) =>
      if flat then Pruned(tail, flat) else More(VariantSet(name, PrunedVariants(vs)), Pruned(tail, flat))
    case More(stmt, tail) => More(stmt, Pruned(tail, flat))
    case _ => b
  }

  function PrunedVariants(vs: Variants): Variants
    decreases vs
  {
    match vs
    case Variant(name, metas, body, rest) => Variant(name, metas, Pruned(body, false), PrunedVariants(rest))
    case _ => vs
  }

  function PropOf(t: Token): seq<string> { if t.PropText? then [t.prop] else [] }

  function ReorderOf(t: Token): seq<Reorder> { if t.ReorderText? then [t.reorder] else [] }

  /** The property statements among tokens. */
  function PropTokens(ts: seq<Token>): seq<string> {
    if ts == [] then [] else PropOf(ts[0]) + PropTokens(ts[1..])
  }

  function ReorderTokens(ts: seq<Token>): seq<Reorder> {
    if ts == [] then [] else ReorderOf(ts[0]) + ReorderTokens(ts[1..])
  }

  lemma {:induction false} PropTokensJoined(a: seq<Token>, b: seq<Token>)
    ensures PropTokens(a + b) == PropTokens(a) + PropTokens(b)
  {
    hide PropOf;
    if a == [] {
      assert a + b == b;
    } else {
      assert (a + b)[0] == a[0] && (a + b)[1..] == a[1..] + b;
      PropTokensJoined(a[1..], b);
      Associate(PropOf(a[0]), PropTokens(a[1..]), PropTokens(b));
    }
  }

  lemma {:induction false} ReorderTokensJoined(a: seq<Token>, b: seq<Token>)
    ensures ReorderTokens(a + b) == ReorderTokens(a) + ReorderTokens(b)
  {
    hide ReorderOf;
    if a == [] {
      assert a + b == b;
    } else {
      assert (a + b)[0] == a[0] && (a + b)[1..] == a[1..] + b;
      ReorderTokensJoined(a[1..], b);
      Associate(ReorderOf(a[0]), ReorderTokens(a[1..]), ReorderTokens(b));
    }
  }

  lemma OneToken(t: Token)
    ensures PropTokens([t]) == PropOf(t) && ReorderTokens([t]) == ReorderOf(t)
    ensures PropTokens([]) == [] && ReorderTokens([]) == []
  {
  }

  lemma HeadHasNone(name: string, metas: Option<string>)
    ensures ReorderTokens(SetHeadText(name)) == [] && ReorderTokens(VariantHeadText(name, metas)) == []
  {
    ReorderTokensJoined([Quoted(name)], MetasText(metas));
    ReorderTokensJoined([Quoted(name)] + MetasText(metas), [Open]);
    ReorderTokensJoined([VariantSetWord, Quoted(name)], [Equals, Open]);
    assert SetHeadText(name) == [VariantSetWord, Quoted(name)] + [Equals, Open];
  }

  /** A body's properties are the property statements of its text, in their order, when its child
      prims and variant sets are cut out. */
  lemma {:induction false} PropsInOrder(b: Body)
    ensures Props(b) == PropTokens(BodyText(Pruned(b, true)))
    decreases b
  {
    match b
    case More(stmt, tail) =>
      PropsInOrder(tail);
      if stmt.Prop? || stmt.ReorderStmt? {
        PropTokensJoined(StmtText(stmt), BodyText(Pruned(tail, true)));
        OneToken(StmtText(stmt)[0]);
      }
    case _ => OneToken(Close);
  }

  lemma PrunedText(b: Body)
    ensures BodyText(Pruned(b, false)) ==
      match b
      case Closed => [Close]
      case Cut => []
      case More(Prop(p, ends), tail) => [PropText(p, ends)] + BodyText(Pruned(tail, false))
      case More(ReorderStmt(r, ends), tail) => [ReorderText(r, ends)] + BodyText(Pruned(tail, false))
      case More(Child(_), tail) => BodyText(Pruned(tail, false))
      case More(VariantSet(name, vs), tail) =>
        SetHeadText(name) + VariantsText(PrunedVariants(vs)) + BodyText(Pruned(tail, false))
  {
    hide SetHeadText, VariantsText, PrunedVariants;
  }

  lemma ThreeJoined(a: seq<Token>, b: seq<Token>, c: seq<Token>)
    ensures ReorderTokens(a + b + c) == ReorderTokens(a) + ReorderTokens(b) + ReorderTokens(c)
  {
    hide ReorderTokens;
    ReorderTokensJoined(a, b);
    ReorderTokensJoined(a + b, c);
  }

  /** A body's reorders are the reorder statements of its text, in their order, when the child prims
      in it and in its variants are cut out. */
  lemma {:induction false} ReordersInOrder(b: Body)
    ensures Reorders(b) == ReorderTokens(BodyText(Pruned(b, false)))
    decreases b
  {
    hide SetHeadText, VariantsText, ReorderTokens, BodyText, Pruned;
    PrunedText(b);
    OneToken(Close);
    match b
    case More(VariantSet(name, vs), tail) =>
      ReordersInOrder(tail);
      VariantReordersInOrder(vs);
      HeadHasNone(name, None);
      ThreeJoined(SetHeadText(name), VariantsText(PrunedVariants(vs)), BodyText(Pruned(tail, false)));
    case More(Child(_), tail) => ReordersInOrder(tail);
    case More(Prop(p, ends), tail) =>
      ReordersInOrder(tail);
      ReorderTokensJoined([PropText(p, ends)], BodyText(Pruned(tail, false)));
      OneToken(PropText(p, ends));
    case More(ReorderStmt(r, ends), tail) =>
      ReordersInOrder(tail);
      ReorderTokensJoined([ReorderText(r, ends)], BodyText(Pruned(tail, false)));
      OneToken(ReorderText(r, ends));
    case _ =>
  }

  lemma {:induction false} VariantReordersInOrder(vs: Variants)
    ensures VariantReorders(vs) == ReorderTokens(VariantsText(PrunedVariants(vs)))
    decreases vs
  {
    hide VariantHeadText, ReorderTokens, Pruned, BodyText;
    OneToken(Close);
    match vs
    case Variant(name, metas, body, rest) =>
      var h, t := VariantHeadText(name, metas), BodyText(Pruned(body, false));
      var behind := VariantsText(PrunedVariants(rest));
      ReordersInOrder(body);
      VariantReordersInOrder(rest);
      HeadHasNone(name, metas);
      ThreeJoined(h, t, behind);
      assert VariantsText(PrunedVariants(vs)) == h + t + behind;
    case _ =>
  }

  // ----- the contents of variant sets -----------------------------------------------------------------

  /** A variant in the text, with the number that it takes. */
  datatype Found = Found(number: nat, metas: Option<string>, body: Body)

  /** The last variant of a name. */
  function LastVariant(vs: Variants, next: nat, name: string): Option<Found>
    decreases vs
  {
    match vs
    case Variant(n, metas, body, rest) =>
      (match LastVariant(rest, next + 1 + BodyCount(body, OfVariant(0, 0)), name)
       case Some(f) => Some(f)
       case None => if n == name then Some(Found(next, metas, body)) else None)
    case _ => None
  }

  /** A variant set in the text, with its number and that of its first variant. */
  datatype FoundSet = FoundSet(number: int, first: nat, variants: Variants)

  /** The last variant set of a name. */
  function LastSet(b: Body, o: Owner, next: nat, name: string): Option<FoundSet>
    decreases b
  {
    match b
    case More(Child(p), tail) => LastSet(tail, o, next + 1 + PrimCount(p), name)
    case More(VariantSet(n, vs), tail) =>
      var number := match o case OfPrim(_) => next case OfVariant(_, v) => v;
      var first := if o.OfPrim? then next + 1 else next;
      (match LastSet(tail, o, first + VariantsCount(vs), name)
       case Some(s) => Some(s)
       case None => if n == name then Some(FoundSet(number, first, vs)) else None)
    case More(_, tail) => LastSet(tail, o, next, name)
    case _ => None
  }

  /** What is stored of a variant: its metadata, its own properties, its prim statements, and its
      nested sets, all of which share its number. */
  ghost predicate Stores(c: VariantContent, set_: int, f: Found) {
    var o := OfVariant(set_, f.number);
    && c.metas == f.metas && c.props == PropTokens(BodyText(Pruned(f.body, true)))
    && c.primIndices == ChildIndices(f.body, o, f.number + 1)
    && c.sets == Sets(f.body, o, f.number + 1, map[])
    && forall name :: name in c.sets ==> c.sets[name].index == f.number
  }

  lemma {:induction false} NestedNumber(b: Body, set_: int, v: int, next: nat, name: string)
    ensures var s := LastSet(b, OfVariant(set_, v), next, name); s.Some? ==> s.value.number == v
    decreases b
  {
    match b
    case More(Child(p), tail) => NestedNumber(tail, set_, v, next + 1 + PrimCount(p), name);
    case More(VariantSet(_, vs), tail) => NestedNumber(tail, set_, v, next + VariantsCount(vs), name);
    case More(_, tail) => NestedNumber(tail, set_, v, next, name);
    case _ =>
  }

  /** Added to `acc`: under each name the last set of that name in the text. */
  lemma {:induction false} SetsExactly(b: Body, o: Owner, next: nat, acc: map<string, SetContent>, name: string)
    ensures var m, last := Sets(b, o, next, acc), LastSet(b, o, next, name);
      if last.Some? then
        var f := last.value;
        name in m && m[name] == SetContent(f.number, VariantMap(f.variants, f.number, f.first, map[]))
      else
        (name in m <==> name in acc) && (name in m ==> m[name] == acc[name])
    decreases b
  {
    hide VariantMap;
    match b
    case More(Child(p), tail) => SetsExactly(tail, o, next + 1 + PrimCount(p), acc, name);
    case More(VariantSet(n, vs), tail) =>
      var first := next + FreshForSet(o);
      var content := SetContent(SetIndex(o, next), VariantMap(vs, SetIndex(o, next), first, map[]));
      SetsExactly(tail, o, first + VariantsCount(vs), acc[n := content], name);
    case More(_, tail) => SetsExactly(tail, o, next, acc, name);
    case _ =>
  }

  lemma ContentStores(metas: Option<string>, body: Body, set_: int, number: nat)
    ensures var o := OfVariant(set_, number);
      Stores(VariantContent(metas, ChildIndices(body, o, number + 1), Props(body), Sets(body, o, number + 1, map[])),
             set_, Found(number, metas, body))
  {
    hide Props, PropTokens, ChildIndices;
    var o := OfVariant(set_, number);
    PropsInOrder(body);
    var sets := Sets(body, o, number + 1, map[]);
    forall name | name in sets ensures sets[name].index == number {
      SetsExactly(body, o, number + 1, map[], name);
      NestedNumber(body, set_, number, number + 1, name);
    }
  }

  /** Added to `acc`: under each name what the last variant of that name stores. */
  lemma {:induction false} VariantsExactly(vs: Variants, set_: int, next: nat, acc: map<string, VariantContent>,
      name: string)
    ensures var m, last := VariantMap(vs, set_, next, acc), LastVariant(vs, next, name);
      if last.Some? then name in m && Stores(m[name], set_, last.value)
      else (name in m <==> name in acc) && (name in m ==> m[name] == acc[name])
    decreases vs
  {
    hide Stores, ChildIndices, Props, Sets, BodyCount;
    match vs
    case Variant(n, metas, body, rest) =>
      var o := OfVariant(set_, next);
      BodyCountByKind(body, o, OfVariant(0, 0));
      var sets := Sets(body, o, next + 1, map[]);
      var content := VariantContent(metas, ChildIndices(body, o, next + 1), Props(body), sets);
      ContentStores(metas, body, set_, next);
      VariantsExactly(rest, set_, next + 1 + BodyCount(body, o), acc[n := content], name);
    case _ =>
  }

  /** The variant sets of a body, exactly: a name stands for the last set of that name, with the
      number that the set takes, and in it a variant name for what the last variant of that name
      stores. */
  lemma ContentsExactly(b: Body, o: Owner, next: nat, setName: string, name: string)
    ensures var m, last := Sets(b, o, next, map[]), LastSet(b, o, next, setName);
      && (setName in m <==> last.Some?)
      && (last.Some? ==> m[setName].index == last.value.number)
    ensures var m, last := Sets(b, o, next, map[]), LastSet(b, o, next, setName);
      last.Some? ==>
        var v := LastVariant(last.value.variants, last.value.first, name);
        && (name in m[setName].variants <==> v.Some?)
        && (v.Some? ==> Stores(m[setName].variants[name], last.value.number, v.value))
  {
    hide Stores, Sets, VariantMap;
    SetsExactly(b, o, next, map[], setName);
    var last := LastSet(b, o, next, setName);
    if last.Some? {
      VariantsExactly(last.value.variants, last.value.number, last.value.first, map[], name);
    }
  }

  // ----- which names are looked at -----------------------------------------------------------------

  ghost predicate AllNamed(ds: multiset<Declared>) { forall d :: d in ds ==> ValidName(d.name) }

  lemma NamedTogether(a: multiset<Declared>, b: multiset<Declared>)
    ensures AllNamed(a + b) <==> AllNamed(a) && AllNamed(b)
  {
    hide ValidName;
    if AllNamed(a + b) {
      forall d | d in a ensures ValidName(d.name) {
        assert d in a + b;
      }
      forall d | d in b ensures ValidName(d.name) {
        assert d in a + b;
      }
    }
  }

  lemma {:induction false} PrimNamesExactly(p: Prim, path: string)
    ensures PrimNamesValid(p) <==> AllNamed(DeclaredPrim(p, path))
    decreases p
  {
    hide ValidName, Props, AllNamed, DeclaredIn;
    var own := JoinPath(path, p.name);
    var d := Declared(own, p.spec, p.typ, p.name, p.metas, Props(p.body));
    BodyNamesExactly(p.body, own);
    NamedTogether(multiset{d}, DeclaredIn(p.body, own));
    OneNamed(d);
  }

  lemma OneNamed(d: Declared)
    ensures AllNamed(multiset{d}) <==> ValidName(d.name)
  {
    assert d in multiset{d};
  }

  /** A body is valid exactly when every prim that it declares, in variants too and at any depth, has
      a valid name. */
  lemma {:induction false} BodyNamesExactly(b: Body, path: string)
    ensures BodyNamesValid(b) <==> AllNamed(DeclaredIn(b, path))
    decreases b
  {
    hide DeclaredPrim, DeclaredInVariants, AllNamed, PrimNamesValid, VariantNamesValid;
    match b
    case More(Child(p), tail) =>
      PrimNamesExactly(p, path);
      BodyNamesExactly(tail, path);
      NamedTogether(DeclaredPrim(p, path), DeclaredIn(tail, path));
    case More(VariantSet(_, vs), tail) =>
      VariantNamesExactly(vs, path);
      BodyNamesExactly(tail, path);
      NamedTogether(DeclaredInVariants(vs, path), DeclaredIn(tail, path));
    case More(_, tail) => BodyNamesExactly(tail, path);
    case _ => NothingNamed();
  }

  lemma {:induction false} VariantNamesExactly(vs: Variants, path: string)
    ensures VariantNamesValid(vs) <==> AllNamed(DeclaredInVariants(vs, path))
    decreases vs
  {
    hide DeclaredIn, AllNamed, BodyNamesValid;
    match vs
    case Variant(_, _, body, rest) =>
      BodyNamesExactly(body, path);
      VariantNamesExactly(rest, path);
      NamedTogether(DeclaredIn(body, path), DeclaredInVariants(rest, path));
    case _ => NothingNamed();
  }

  lemma NothingNamed()
    ensures AllNamed(multiset{})
  {
  }

  // ----- nesting ----------------------------------------------------------------------------------------

  /** How many levels deeper than a body something in it is parsed: one for each prim and for each
      variant set inside a variant on the way down; a variant set of a prim takes none. */
  function Levels(b: Body, inVariant: bool): nat
    decreases b
  {
    match b
    case More(Child(p), tail) => Larger(1 + Levels(p.body, false), Levels(tail, inVariant))
    case More(VariantSet(_, vs), tail) =>
      Larger((if inVariant then 1 else 0) + VariantLevels(vs), Levels(tail, inVariant))
    case More(_, tail) => Levels(tail, inVariant)
    case _ => 0
  }

  function VariantLevels(vs: Variants): nat
    decreases vs
  {
    match vs case Variant(_, _, body, rest) => Larger(Levels(body, true), VariantLevels(rest)) case _ => 0
  }

  function Larger(a: nat, b: nat): nat { if a > b then a else b }

  lemma {:induction false} DepthIsLevels(b: Body, d: nat, inVariant: bool)
    ensures BodyDepth(b, d, inVariant) == d + Levels(b, inVariant)
    decreases b
  {
    match b
    case More(Child(p), tail) =>
      DepthIsLevels(p.body, d + 1, false);
      DepthIsLevels(tail, d, inVariant);
    case More(VariantSet(_, vs), tail) =>
      VariantDepthIsLevels(vs, if inVariant then d + 1 else d);
      DepthIsLevels(tail, d, inVariant);
    case More(_, tail) => DepthIsLevels(tail, d, inVariant);
    case _ =>
  }

  lemma {:induction false} VariantDepthIsLevels(vs: Variants, d: nat)
    ensures VariantsDepth(vs, d) == d + VariantLevels(vs)
    decreases vs
  {
    match vs
    case Variant(_, _, body, rest) =>
      DepthIsLevels(body, d, true);
      VariantDepthIsLevels(rest, d);
    case _ =>
  }

  ghost predicate EachAccepted(accept: Call -> bool, calls: seq<Call>) { forall c :: c in calls ==> accept(c) }

  lemma AcceptedEach(accept: Call -> bool, calls: seq<Call>)
    ensures AllAccepted(accept, calls) <==> EachAccepted(accept, calls)
  {
  }

  /** What makes a prim good: it and all in it come to at most 512 levels, every prim that it declares
      has a valid name, and every callback accepts. */
  lemma GoodPrimExactly(accept: Call -> bool, p: Prim, index: int, parent: int, path: string, next: nat, d: nat)
    ensures GoodPrim(accept, p, index, parent, path, next, d) <==>
      && d + Levels(p.body, false) <= 512 && AllNamed(DeclaredPrim(p, path))
      && EachAccepted(accept, PrimCalls(p, index, parent, path, next))
  {
    hide AllAccepted, EachAccepted, PrimCalls, PrimNamesValid, AllNamed, DeclaredPrim;
    DepthIsLevels(p.body, d, false);
    PrimNamesExactly(p, path);
    AcceptedEach(accept, PrimCalls(p, index, parent, path, next));
  }

  lemma GoodBodyExactly(accept: Call -> bool, b: Body, o: Owner, path: string, next: nat, d: nat)
    ensures GoodBody(accept, b, o, path, next, d) <==>
      && d + Levels(b, o.OfVariant?) <= 512 && AllNamed(DeclaredIn(b, path))
      && EachAccepted(accept, BodyCalls(b, o, path, next))
  {
    hide AllAccepted, EachAccepted, BodyCalls, BodyNamesValid, AllNamed, DeclaredIn;
    DepthIsLevels(b, d, o.OfVariant?);
    BodyNamesExactly(b, path);
    AcceptedEach(accept, BodyCalls(b, o, path, next));
  }

  lemma GoodVariantsExactly(accept: Call -> bool, vs: Variants, number: int, path: string, next: nat, d: nat)
    ensures GoodVariants(accept, vs, number, path, next, d) <==>
      && d + VariantLevels(vs) <= 512 && AllNamed(DeclaredInVariants(vs, path))
      && EachAccepted(accept, VariantCalls(vs, number, path, next))
  {
    hide AllAccepted, EachAccepted, VariantCalls, VariantNamesValid, AllNamed, DeclaredInVariants;
    VariantDepthIsLevels(vs, d);
    VariantNamesExactly(vs, path);
    AcceptedEach(accept, VariantCalls(vs, number, path, next));
  }

  lemma {:induction false} LayerLevels(b: Body)
    requires IsLayer(b)
    ensures LayerDepth(b) <= 512 <==> Levels(b, false) <= 513
    decreases b
  {
    match b
    case More(Child(p), tail) =>
      DepthIsLevels(p.body, 0, false);
      LayerLevels(tail);
    case More(ReorderStmt(_, _), tail) => LayerLevels(tail);
    case _ =>
  }

  /** A layer may come to 513 levels, because its root prims are parsed at level 0. */
  lemma GoodLayerExactly(accept: Call -> bool, b: Body, next: nat)
    requires IsLayer(b)
    ensures GoodLayer(accept, b, next) <==>
      && Levels(b, false) <= 513 && AllNamed(DeclaredIn(b, "/")) && EachAccepted(accept, BodyCalls(b, LAYER, "/", next))
  {
    hide AllAccepted, EachAccepted, BodyCalls, BodyNamesValid, AllNamed, DeclaredIn, LayerDepth, Levels;
    LayerLevels(b);
    BodyNamesExactly(b, ROOT);
    AcceptedEach(accept, BodyCalls(b, LAYER, ROOT, next));
  }

  /** `n` prims, each in the one before. */
  function Chain(n: nat): Prim
    decreases n
  {
    Prim(Def, None, "A", None, if n <= 1 then Closed else More(Child(Chain(n - 1)), Closed))
  }

  lemma {:induction false} ChainLevels(n: nat)
    requires n > 0
    ensures 1 + Levels(Chain(n).body, false) == n
  {
    if n > 1 {
      ChainLevels(n - 1);
    }
  }

  /** As a root prim, a chain of up to 513 prims is within the limit, and no longer one. */
  lemma ChainLimit(n: nat)
    requires n > 0
    ensures LayerDepth(More(Child(Chain(n)), Cut)) <= MAX_DEPTH <==> n <= 513
  {
    ChainLevels(n);
    hide Chain, LayerDepth;
    var b := More(Child(Chain(n)), Cut);
    assert Levels(b, false) == Larger(1 + Levels(Chain(n).body, false), Levels(Cut, false));
    LayerLevels(b);
  }

  // ----- names ------------------------------------------------------------------------------------------

  /** A name starts with a letter or an underscore, and goes on with these and digits. */
  lemma NamesExactly(name: string)
    ensures ValidName(name) <==>
      && name != "" && (name[0] in CAPITALS || name[0] in SMALL || name[0] == '_')
      && forall i :: 1 <= i < |name| ==> name[i] in CAPITALS || name[i] in SMALL || name[i] in DIGITS || name[i] == '_'
  {
    forall i | 0 <= i < |name|
      ensures IsLetter(name[i]) <==> name[i] in CAPITALS || name[i] in SMALL
      ensures IsDigit(name[i]) <==> name[i] in DIGITS
    {
      CapitalsAre(name[i]);
      SmallAre(name[i]);
      DigitsAre(name[i]);
    }
  }
}
