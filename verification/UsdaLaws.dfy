/** Laws of what parsing a tree produces: every index is used once and parents come before
    children, callbacks are made in post-order, no reorder statement is lost or taken twice,
    and the prims inside variants are listed where they belong. */
module UsdaLaws {
  import opened Options
  import opened UsdaSyntax
  import opened UsdaMeaning

  // ----- indices ----------------------------------------------------------------------------

  ghost predicate IndicesIn(calls: seq<Call>, lo: int, hi: int) {
    forall i :: 0 <= i < |calls| ==> lo <= calls[i].index < hi
  }

  ghost predicate DistinctIndices(calls: seq<Call>) {
    forall i, j :: 0 <= i < j < |calls| ==> calls[i].index != calls[j].index
  }

  /** A parent's index is smaller than its child's, so the parent relation is a forest. */
  ghost predicate ParentsFirst(calls: seq<Call>) {
    forall i :: 0 <= i < |calls| ==> calls[i].parent < calls[i].index
  }

  ghost predicate WellIndexed(calls: seq<Call>, lo: int, hi: int) {
    IndicesIn(calls, lo, hi) && DistinctIndices(calls) && ParentsFirst(calls)
  }

  lemma JoinIndexed(a: seq<Call>, b: seq<Call>, lo: int, mid: int, hi: int)
    requires WellIndexed(a, lo, mid) && WellIndexed(b, mid, hi) && lo <= mid <= hi
    ensures WellIndexed(a + b, lo, hi)
  {
  }

  ghost predicate OwnerBefore(o: Owner, next: nat) {
    match o case OfPrim(i) => i < next case OfVariant(s, v) => s < next && v < next
  }

  lemma {:induction false} PrimWellIndexed(p: Prim, parent: int, path: string, index: nat)
    requires parent < index
    ensures WellIndexed(PrimCalls(p, index, parent, path, index + 1), index, index + 1 + PrimCount(p))
    decreases p, 1
  {
    hide BodyCalls, BodyCount;
    var o := OfPrim(index);
    BodyWellIndexed(p.body, o, JoinPath(path, p.name), index + 1);
    BodyCountByKind(p.body, OfPrim(0), o);
    var inner := BodyCalls(p.body, o, JoinPath(path, p.name), index + 1);
    var own := PrimCall(p, index, parent, path, index + 1);
    assert PrimCalls(p, index, parent, path, index + 1) == inner + [own];
    assert own.index == index && own.parent == parent;
  }

  lemma {:induction false} BodyWellIndexed(b: Body, o: Owner, path: string, next: nat)
    requires OwnerBefore(o, next)
    ensures WellIndexed(BodyCalls(b, o, path, next), next, next + BodyCount(b, o))
    decreases b, 0
  {
    hide WellIndexed, PrimCalls, PrimCount, VariantCalls, VariantsCount;
    match b
    case More(Child(p), tail) =>
      var mid := next + 1 + PrimCount(p);
      PrimWellIndexed(p, ParentFor(o), path, next);
      BodyWellIndexed(tail, o, path, mid);
      JoinIndexed(PrimCalls(p, next, ParentFor(o), path, next + 1), BodyCalls(tail, o, path, mid), next, mid,
          next + BodyCount(b, o));
    case More(VariantSet(_, vs), tail) =>
      var first := next + FreshForSet(o);
      var mid := first + VariantsCount(vs);
      VariantsWellIndexed(vs, SetIndex(o, next), path, first);
      WidenIndexed(VariantCalls(vs, SetIndex(o, next), path, first), first, next, mid);
      BodyWellIndexed(tail, o, path, mid);
      JoinIndexed(VariantCalls(vs, SetIndex(o, next), path, first), BodyCalls(tail, o, path, mid), next, mid,
          next + BodyCount(b, o));
    case More(_, tail) => BodyWellIndexed(tail, o, path, next);
    case _ => NothingIndexed(next);
  }

  lemma NothingIndexed(lo: int)
    ensures WellIndexed([], lo, lo)
  {
  }

  lemma WidenIndexed(calls: seq<Call>, lo: int, lower: int, hi: int)
    requires WellIndexed(calls, lo, hi) && lower <= lo
    ensures WellIndexed(calls, lower, hi)
  {
  }

  lemma {:induction false} VariantsWellIndexed(vs: Variants, set_: int, path: string, next: nat)
    requires set_ < next
    ensures WellIndexed(VariantCalls(vs, set_, path, next), next, next + VariantsCount(vs))
    decreases vs, 0
  {
    hide WellIndexed, BodyCalls, BodyCount;
    match vs
    case Variant(_, _, body, rest) =>
      var o := OfVariant(set_, next);
      var mid := next + 1 + BodyCount(body, o);
      BodyCountByKind(body, OfVariant(0, 0), o);
      BodyWellIndexed(body, o, path, next + 1);
      WidenIndexed(BodyCalls(body, o, path, next + 1), next + 1, next, mid);
      VariantsWellIndexed(rest, set_, path, mid);
      JoinIndexed(BodyCalls(body, o, path, next + 1), VariantCalls(rest, set_, path, mid), next, mid,
          next + VariantsCount(vs));
    case _ => NothingIndexed(next);
  }

  /** Every index that a body takes, in text order: those of its prims, of its variants, and of
      its variant sets unless they share the index of a variant. */
  function Taken(b: Body, o: Owner, next: nat): seq<int>
    decreases b
  {
    match b
    case More(Child(p), tail) =>
      [next] + Taken(p.body, OfPrim(next), next + 1) + Taken(tail, o, next + 1 + PrimCount(p))
    case More(VariantSet(_, vs), tail) =>
      (if o.OfPrim? then [SetIndex(o, next)] else [])
      + TakenByVariants(vs, SetIndex(o, next), next + FreshForSet(o))
      + Taken(tail, o, next + FreshForSet(o) + VariantsCount(vs))
    case More(_, tail) => Taken(tail, o, next)
    case _ => []
  }

  function TakenByVariants(vs: Variants, set_: int, next: nat): seq<int>
    decreases vs
  {
    match vs
    case Variant(_, _, body, rest) =>
      var o := OfVariant(set_, next);
      [next] + Taken(body, o, next + 1) + TakenByVariants(rest, set_, next + 1 + BodyCount(body, o))
    case _ => []
  }

  function Range(lo: nat, n: nat): (r: seq<int>)
    ensures |r| == n && forall i :: 0 <= i < n ==> r[i] == lo + i
  {
    seq(n, i => lo + i)
  }

  lemma ChildTakes(p: Prim, tail: Body, o: Owner, next: nat)
    ensures var b := More(Child(p), tail);
      Taken(b, o, next) == [next] + Taken(p.body, OfPrim(next), next + 1) + Taken(tail, o, next + 1 + PrimCount(p))
      && BodyCount(b, o) == 1 + PrimCount(p) + BodyCount(tail, o)
  {
    hide PrimCount;
  }

  lemma SetTakes(name: string, vs: Variants, tail: Body, o: Owner, next: nat)
    ensures var b := More(VariantSet(name, vs), tail); var first := next + FreshForSet(o);
      Taken(b, o, next) == Range(next, FreshForSet(o)) + TakenByVariants(vs, SetIndex(o, next), first)
                           + Taken(tail, o, first + VariantsCount(vs))
      && BodyCount(b, o) == FreshForSet(o) + VariantsCount(vs) + BodyCount(tail, o)
  {
    hide VariantsCount, TakenByVariants;
    assert Range(next, 1) == [next] && Range(next, 0) == [];
  }

  /** Three consecutive ranges make one. */
  lemma ThreeRanges(lo: nat, a: nat, b: nat, c: nat)
    ensures Range(lo, a) + Range(lo + a, b) + Range(lo + a + b, c) == Range(lo, a + b + c) && Range(lo, 1) == [lo]
  {
  }

  /** Prims, variants and variant sets take consecutive indices, each exactly one of its own. */
  lemma {:induction false} IndicesInOrder(b: Body, o: Owner, next: nat)
    ensures Taken(b, o, next) == Range(next, BodyCount(b, o))
    decreases b
  {
    hide Taken, Range, TakenByVariants, VariantsCount, BodyCount, PrimCount, SetIndex, FreshForSet;
    match b
    case More(Child(p), tail) =>
      IndicesInOrder(p.body, OfPrim(next), next + 1);
      PrimCountIs(p, next);
      IndicesInOrder(tail, o, next + 1 + PrimCount(p));
      ChildTakes(p, tail, o, next);
      ThreeRanges(next, 1, PrimCount(p), BodyCount(tail, o));
    case More(VariantSet(name, vs), tail) =>
      VariantIndicesInOrder(vs, SetIndex(o, next), next + FreshForSet(o));
      IndicesInOrder(tail, o, next + FreshForSet(o) + VariantsCount(vs));
      SetTakes(name, vs, tail, o, next);
      ThreeRanges(next, FreshForSet(o), VariantsCount(vs), BodyCount(tail, o));
    case More(_, tail) =>
      IndicesInOrder(tail, o, next);
      OtherTakes(b, o, next);
    case _ => OtherTakes(b, o, next);
  }

  lemma OtherTakes(b: Body, o: Owner, next: nat)
    requires b.More? ==> b.head.Prop? || b.head.ReorderStmt?
    ensures b.More? ==> Taken(b, o, next) == Taken(b.tail, o, next) && BodyCount(b, o) == BodyCount(b.tail, o)
    ensures !b.More? ==> Taken(b, o, next) == [] == Range(next, 0) && BodyCount(b, o) == 0
  {
  }

  lemma PrimCountIs(p: Prim, index: int)
    ensures PrimCount(p) == BodyCount(p.body, OfPrim(index))
  {
    BodyCountByKind(p.body, OfPrim(0), OfPrim(index));
  }

  lemma {:induction false} VariantIndicesInOrder(vs: Variants, set_: int, next: nat)
    ensures TakenByVariants(vs, set_, next) == Range(next, VariantsCount(vs))
    decreases vs
  {
    hide Range, Taken, BodyCount;
    match vs
    case Variant(_, _, body, rest) =>
      var o := OfVariant(set_, next);
      IndicesInOrder(body, o, next + 1);
      BodyCountByKind(body, OfVariant(0, 0), o);
      VariantIndicesInOrder(rest, set_, next + 1 + BodyCount(body, o));
      ThreeRanges(next, 1, BodyCount(body, o), VariantsCount(rest));
    case _ => NoRange(next);
  }

  lemma NoRange(lo: nat)
    ensures Range(lo, 0) == []
  {
  }

  // ----- post-order ---------------------------------------------------------------------------

  ghost predicate AllBelow(calls: seq<Call>, path: string) {
    forall i :: 0 <= i < |calls| ==> Below(calls[i].path, path)
  }

  /** A prim path that continues `path`. */
  ghost predicate Below(longer: string, path: string) {
    |path| < |longer| && path <= longer && (path == ROOT || longer[|path|] == '/')
  }

  lemma JoinBelow(path: string, name: string)
    requires path != "" && (path == ROOT ==> name != "")
    ensures Below(JoinPath(path, name), path) && JoinPath(path, name) != "" && JoinPath(path, name) != ROOT
  {
  }

  /** The callbacks of a prim end with its own, and all the others are for prims below it. */
  lemma {:induction false} PostOrder(p: Prim, index: int, parent: int, path: string, next: nat)
    requires path != "" && PrimNamesValid(p)
    ensures var calls := PrimCalls(p, index, parent, path, next); var own := JoinPath(path, p.name);
      calls != [] && calls[|calls| - 1].path == own && Below(own, path) && own != ROOT
      && AllBelow(calls[..|calls| - 1], own)
    decreases p, 1
  {
    hide BodyCalls;
    var own := JoinPath(path, p.name);
    JoinBelow(path, p.name);
    BodyPostOrder(p.body, OfPrim(index), own, next);
    var calls := PrimCalls(p, index, parent, path, next);
    assert calls[..|calls| - 1] == BodyCalls(p.body, OfPrim(index), own, next);
  }

  lemma AllBelowParent(calls: seq<Call>, own: string, path: string)
    requires calls != [] && calls[|calls| - 1].path == own && AllBelow(calls[..|calls| - 1], own)
    requires Below(own, path) && own != ROOT
    ensures AllBelow(calls, path)
  {
  }

  lemma NothingBelow(path: string)
    ensures AllBelow([], path)
  {
  }

  lemma AllBelowAppend(a: seq<Call>, b: seq<Call>, path: string)
    requires AllBelow(a, path) && AllBelow(b, path)
    ensures AllBelow(a + b, path)
  {
  }

  lemma {:induction false} BodyPostOrder(b: Body, o: Owner, path: string, next: nat)
    requires path != "" && BodyNamesValid(b)
    ensures AllBelow(BodyCalls(b, o, path, next), path)
    decreases b, 0
  {
    hide PrimCalls, VariantCalls, AllBelow, Below, JoinPath, PrimCount, VariantsCount, ValidName;
    if !b.More? {
      assert AllBelow([], path) by { NothingBelow(path); }
    }
    match b
    case More(Child(p), tail) =>
      PostOrder(p, next, ParentFor(o), path, next + 1);
      AllBelowParent(PrimCalls(p, next, ParentFor(o), path, next + 1), JoinPath(path, p.name), path);
      BodyPostOrder(tail, o, path, next + 1 + PrimCount(p));
      AllBelowAppend(PrimCalls(p, next, ParentFor(o), path, next + 1),
          BodyCalls(tail, o, path, next + 1 + PrimCount(p)), path);
    case More(VariantSet(_, vs), tail) =>
      var first := next + FreshForSet(o);
      VariantsPostOrder(vs, SetIndex(o, next), path, first);
      BodyPostOrder(tail, o, path, first + VariantsCount(vs));
      AllBelowAppend(VariantCalls(vs, SetIndex(o, next), path, first),
          BodyCalls(tail, o, path, first + VariantsCount(vs)), path);
    case More(_, tail) => BodyPostOrder(tail, o, path, next);
    case _ =>
  }

  lemma {:induction false} VariantsPostOrder(vs: Variants, set_: int, path: string, next: nat)
    requires path != "" && VariantNamesValid(vs)
    ensures AllBelow(VariantCalls(vs, set_, path, next), path)
    decreases vs, 0
  {
    hide BodyCalls, BodyCount;
    match vs
    case Variant(_, _, body, rest) =>
      var o := OfVariant(set_, next);
      BodyPostOrder(body, o, path, next + 1);
      VariantsPostOrder(rest, set_, path, next + 1 + BodyCount(body, o));
    case _ =>
  }

  // ----- every prim is constructed once ------------------------------------------------------------

  /** What the text says about one prim, with its path. */
  datatype Declared = Declared(path: string, spec: Specifier, typ: Option<string>, name: string, metas: Option<string>,
                               props: seq<string>)

  function DeclaredPrim(p: Prim, path: string): multiset<Declared>
    decreases p
  {
    var own := JoinPath(path, p.name);
    multiset{Declared(own, p.spec, p.typ, p.name, p.metas, Props(p.body))} + DeclaredIn(p.body, own)
  }

  /** All prims of a body that belongs to `path`, those in variants included. */
  function DeclaredIn(b: Body, path: string): multiset<Declared>
    decreases b
  {
    match b
    case More(Child(p), tail) => DeclaredPrim(p, path) + DeclaredIn(tail, path)
    case More(VariantSet(_, vs), tail) => DeclaredInVariants(vs, path) + DeclaredIn(tail, path)
    case More(_, tail) => DeclaredIn(tail, path)
    case _ => multiset{}
  }

  function DeclaredInVariants(vs: Variants, path: string): multiset<Declared>
    decreases vs
  {
    match vs
    case Variant(_, _, body, rest) => DeclaredIn(body, path) + DeclaredInVariants(rest, path)
    case _ => multiset{}
  }

  function DeclaredOf(c: Call): Declared {
    Declared(c.path, c.spec, c.typ, c.name, c.metas, c.props)
  }

  function Constructed(calls: seq<Call>): multiset<Declared> {
    if calls == [] then multiset{} else multiset{DeclaredOf(calls[0])} + Constructed(calls[1..])
  }

  lemma {:induction false} ConstructedAppend(a: seq<Call>, b: seq<Call>)
    ensures Constructed(a + b) == Constructed(a) + Constructed(b)
  {
    if a == [] {
      assert a + b == b;
    } else {
      assert (a + b)[1..] == a[1..] + b;
      ConstructedAppend(a[1..], b);
    }
  }

  lemma ConstructedOne(c: Call)
    ensures Constructed([c]) == multiset{DeclaredOf(c)}
  {
    assert Constructed([c][1..]) == multiset{};
  }

  /** The callbacks of a prim are for the prims of its text, each exactly once and with what
      the text says about it. */
  lemma {:induction false} EachPrimOnce(p: Prim, index: int, parent: int, path: string, next: nat)
    ensures Constructed(PrimCalls(p, index, parent, path, next)) == DeclaredPrim(p, path)
    decreases p, 1
  {
    hide BodyCalls, DeclaredIn, Props, Sets, Reorders, Constructed, JoinPath;
    var own := PrimCall(p, index, parent, path, next);
    BodyPrimsOnce(p.body, OfPrim(index), JoinPath(path, p.name), next);
    ConstructedAppend(BodyCalls(p.body, OfPrim(index), JoinPath(path, p.name), next), [own]);
    ConstructedOne(own);
  }

  lemma {:induction false} BodyPrimsOnce(b: Body, o: Owner, path: string, next: nat)
    ensures Constructed(BodyCalls(b, o, path, next)) == DeclaredIn(b, path)
    decreases b, 0
  {
    hide PrimCalls, VariantCalls, DeclaredPrim, DeclaredInVariants, PrimCount, VariantsCount, SetIndex, FreshForSet,
        ParentFor, Constructed;
    match b
    case More(Child(p), tail) =>
      var after := next + 1 + PrimCount(p);
      EachPrimOnce(p, next, ParentFor(o), path, next + 1);
      BodyPrimsOnce(tail, o, path, after);
      ConstructedAppend(PrimCalls(p, next, ParentFor(o), path, next + 1), BodyCalls(tail, o, path, after));
    case More(VariantSet(_, vs), tail) =>
      var first := next + FreshForSet(o);
      var after := first + VariantsCount(vs);
      VariantPrimsOnce(vs, SetIndex(o, next), path, first);
      BodyPrimsOnce(tail, o, path, after);
      ConstructedAppend(VariantCalls(vs, SetIndex(o, next), path, first), BodyCalls(tail, o, path, after));
    case More(_, tail) => BodyPrimsOnce(tail, o, path, next);
    case _ => NothingConstructed();
  }

  lemma NothingConstructed()
    ensures Constructed([]) == multiset{}
  {
  }

  lemma {:induction false} VariantPrimsOnce(vs: Variants, set_: int, path: string, next: nat)
    ensures Constructed(VariantCalls(vs, set_, path, next)) == DeclaredInVariants(vs, path)
    decreases vs, 0
  {
    hide BodyCalls, DeclaredIn, BodyCount, Constructed;
    match vs
    case Variant(_, _, body, rest) =>
      var o := OfVariant(set_, next);
      var after := next + 1 + BodyCount(body, o);
      BodyPrimsOnce(body, o, path, next + 1);
      VariantPrimsOnce(rest, set_, path, after);
      ConstructedAppend(BodyCalls(body, o, path, next + 1), VariantCalls(rest, set_, path, after));
    case _ => NothingConstructed();
  }

  // ----- no reorder statement is lost ------------------------------------------------------------

  /** Every reorder statement in the text, in text order. */
  function AllReorders(b: Body): seq<Reorder>
    decreases b
  {
    match b
    case More(ReorderStmt(r, _), tail) => [r] + AllReorders(tail)
    case More(Child(p), tail) => AllReorders(p.body) + AllReorders(tail)
    case More(VariantSet(_, vs), tail) => AllVariantReorders(vs) + AllReorders(tail)
    case More(_, tail) => AllReorders(tail)
    case _ => []
  }

  function AllVariantReorders(vs: Variants): seq<Reorder>
    decreases vs
  {
    match vs
    case Variant(_, _, body, rest) => AllReorders(body) + AllVariantReorders(rest)
    case _ => []
  }

  /** The reorder statements that callbacks carry, with multiplicity. */
  function Carried(calls: seq<Call>): multiset<Reorder> {
    if calls == [] then multiset{} else multiset(calls[0].reorders) + Carried(calls[1..])
  }

  lemma {:induction false} CarriedAppend(a: seq<Call>, b: seq<Call>)
    ensures Carried(a + b) == Carried(a) + Carried(b)
  {
    if a == [] {
      assert a + b == b;
    } else {
      assert (a + b)[1..] == a[1..] + b;
      CarriedAppend(a[1..], b);
    }
  }

  /** Each reorder statement of the tree is carried by exactly one callback. */
  lemma {:induction false} ReordersConserved(p: Prim, index: int, parent: int, path: string, next: nat)
    ensures Carried(PrimCalls(p, index, parent, path, next)) == multiset(AllReorders(p.body))
    decreases p, 1
  {
    hide BodyCalls, Reorders, AllReorders;
    var own := PrimCall(p, index, parent, path, next);
    BodyReordersConserved(p.body, OfPrim(index), JoinPath(path, p.name), next);
    CarriedAppend(BodyCalls(p.body, OfPrim(index), JoinPath(path, p.name), next), [own]);
    assert [own][1..] == [];
    assert Carried([own]) == multiset(own.reorders) + Carried([]);
  }

  /** Two parts that each balance also balance together. */
  lemma Balance(x: seq<Call>, y: seq<Call>, own1: seq<Reorder>, own2: seq<Reorder>, all1: seq<Reorder>,
      all2: seq<Reorder>)
    requires Carried(x) + multiset(own1) == multiset(all1)
    requires Carried(y) + multiset(own2) == multiset(all2)
    ensures Carried(x + y) + multiset(own1 + own2) == multiset(all1 + all2)
  {
    hide Carried;
    CarriedAppend(x, y);
    assert multiset(own1 + own2) == multiset(own1) + multiset(own2);
    assert multiset(all1 + all2) == multiset(all1) + multiset(all2);
  }

  /** What a body's callbacks carry, together with its own reorders, is all its reorders. */
  ghost predicate Balanced(b: Body, o: Owner, path: string, next: nat) {
    Carried(BodyCalls(b, o, path, next)) + multiset(Reorders(b)) == multiset(AllReorders(b))
  }

  lemma ChildParts(p: Prim, tail: Body, o: Owner, path: string, next: nat)
    ensures var b := More(Child(p), tail);
      BodyCalls(b, o, path, next) ==
        PrimCalls(p, next, ParentFor(o), path, next + 1) + BodyCalls(tail, o, path, next + 1 + PrimCount(p))
      && Reorders(b) == [] + Reorders(tail) && AllReorders(b) == AllReorders(p.body) + AllReorders(tail)
  {
  }

  lemma SetParts(name: string, vs: Variants, tail: Body, o: Owner, path: string, next: nat)
    ensures var b := More(VariantSet(name, vs), tail); var first := next + FreshForSet(o);
      BodyCalls(b, o, path, next) ==
        VariantCalls(vs, SetIndex(o, next), path, first) + BodyCalls(tail, o, path, first + VariantsCount(vs))
      && Reorders(b) == VariantReorders(vs) + Reorders(tail)
          && AllReorders(b) == AllVariantReorders(vs) + AllReorders(tail)
  {
  }

  lemma BalancedChild(p: Prim, tail: Body, o: Owner, path: string, next: nat)
    requires Carried(PrimCalls(p, next, ParentFor(o), path, next + 1)) == multiset(AllReorders(p.body))
    requires Balanced(tail, o, path, next + 1 + PrimCount(p))
    ensures Balanced(More(Child(p), tail), o, path, next)
  {
    hide PrimCalls, Carried, PrimCount, BodyCalls, Reorders, AllReorders;
    ChildParts(p, tail, o, path, next);
    Balance(PrimCalls(p, next, ParentFor(o), path, next + 1), BodyCalls(tail, o, path, next + 1 + PrimCount(p)),
            [], Reorders(tail), AllReorders(p.body), AllReorders(tail));
  }

  lemma BalancedSet(name: string, vs: Variants, tail: Body, o: Owner, path: string, next: nat)
    requires BalancedVariants(vs, SetIndex(o, next), path, next + FreshForSet(o))
    requires Balanced(tail, o, path, next + FreshForSet(o) + VariantsCount(vs))
    ensures Balanced(More(VariantSet(name, vs), tail), o, path, next)
  {
    hide VariantCalls, Carried, VariantsCount, VariantReorders, AllVariantReorders, BodyCalls, Reorders, AllReorders,
        SetIndex, FreshForSet;
    var first := next + FreshForSet(o);
    SetParts(name, vs, tail, o, path, next);
    Balance(VariantCalls(vs, SetIndex(o, next), path, first), BodyCalls(tail, o, path, first + VariantsCount(vs)),
            VariantReorders(vs), Reorders(tail), AllVariantReorders(vs), AllReorders(tail));
  }

  lemma BalancedReorder(r: Reorder, ends: bool, tail: Body, o: Owner, path: string, next: nat)
    requires Balanced(tail, o, path, next)
    ensures Balanced(More(ReorderStmt(r, ends), tail), o, path, next)
  {
  }

  lemma BalancedProp(p: string, ends: bool, tail: Body, o: Owner, path: string, next: nat)
    ensures Balanced(More(Prop(p, ends), tail), o, path, next) <==> Balanced(tail, o, path, next)
  {
  }

  lemma BalancedEnd(b: Body, o: Owner, path: string, next: nat)
    requires !b.More?
    ensures Balanced(b, o, path, next)
  {
  }

  lemma {:induction false} BodyReordersConserved(b: Body, o: Owner, path: string, next: nat)
    ensures Balanced(b, o, path, next)
    decreases b, 0
  {
    hide Balanced, BalancedVariants, Carried, PrimCalls, AllReorders, PrimCount, VariantsCount;
    match b
    case More(Child(p), tail) =>
      ReordersConserved(p, next, ParentFor(o), path, next + 1);
      BodyReordersConserved(tail, o, path, next + 1 + PrimCount(p));
      BalancedChild(p, tail, o, path, next);
    case More(VariantSet(name, vs), tail) =>
      VariantReordersConserved(vs, SetIndex(o, next), path, next + FreshForSet(o));
      BodyReordersConserved(tail, o, path, next + FreshForSet(o) + VariantsCount(vs));
      BalancedSet(name, vs, tail, o, path, next);
    case More(ReorderStmt(r, _), tail) =>
      BodyReordersConserved(tail, o, path, next);
      BalancedReorder(r, b.head.endsLine, tail, o, path, next);
    case More(Prop(p, _), tail) =>
      BodyReordersConserved(tail, o, path, next);
      BalancedProp(p, b.head.endsLine, tail, o, path, next);
    case _ => BalancedEnd(b, o, path, next);
  }

  lemma VariantParts(name: string, metas: Option<string>, body: Body, rest: Variants, set_: int, path: string,
      next: nat)
    ensures var vs := Variant(name, metas, body, rest); var o := OfVariant(set_, next);
      VariantCalls(vs, set_, path, next)
      == BodyCalls(body, o, path, next + 1) + VariantCalls(rest, set_, path, next + 1 + BodyCount(body, o))
      && VariantReorders(vs) == Reorders(body) + VariantReorders(rest)
      && AllVariantReorders(vs) == AllReorders(body) + AllVariantReorders(rest)
  {
    hide BodyCalls, Reorders, AllReorders, BodyCount;
  }

  ghost predicate BalancedVariants(vs: Variants, set_: int, path: string, next: nat) {
    Carried(VariantCalls(vs, set_, path, next)) + multiset(VariantReorders(vs)) == multiset(AllVariantReorders(vs))
  }

  lemma BalancedVariant(name: string, metas: Option<string>, body: Body, rest: Variants, set_: int, path: string,
      next: nat)
    requires var o := OfVariant(set_, next);
      Balanced(body, o, path, next + 1) && BalancedVariants(rest, set_, path, next + 1 + BodyCount(body, o))
    ensures BalancedVariants(Variant(name, metas, body, rest), set_, path, next)
  {
    hide Carried, BodyCalls, Reorders, AllReorders, BodyCount, VariantCalls, VariantReorders, AllVariantReorders;
    var o := OfVariant(set_, next);
    VariantParts(name, metas, body, rest, set_, path, next);
    Balance(BodyCalls(body, o, path, next + 1), VariantCalls(rest, set_, path, next + 1 + BodyCount(body, o)),
            Reorders(body), VariantReorders(rest), AllReorders(body), AllVariantReorders(rest));
  }

  lemma NoVariantsBalanced(vs: Variants, set_: int, path: string, next: nat)
    requires !vs.Variant?
    ensures BalancedVariants(vs, set_, path, next)
  {
  }

  lemma {:induction false} VariantReordersConserved(vs: Variants, set_: int, path: string, next: nat)
    ensures BalancedVariants(vs, set_, path, next)
    decreases vs, 0
  {
    hide Balanced, BalancedVariants, BodyCount;
    match vs
    case Variant(name, metas, body, rest) =>
      var o := OfVariant(set_, next);
      BodyReordersConserved(body, o, path, next + 1);
      VariantReordersConserved(rest, set_, path, next + 1 + BodyCount(body, o));
      BalancedVariant(name, metas, body, rest, set_, path, next);
    case _ => NoVariantsBalanced(vs, set_, path, next);
  }

  /** A whole layer: indices are distinct and parents come first, every prim is below "/"
      and constructed once, and every reorder statement is carried by one callback, except those of the layer
      itself, which are dropped. */
  lemma LayerLaws(b: Body)
    requires IsLayer(b) && BodyNamesValid(b)
    ensures var calls := BodyCalls(b, LAYER, ROOT, 0);
      WellIndexed(calls, 0, BodyCount(b, LAYER)) && AllBelow(calls, ROOT)
      && Constructed(calls) == DeclaredIn(b, ROOT)
      && Carried(calls) + multiset(Reorders(b)) == multiset(AllReorders(b))
  {
    hide WellIndexed, AllBelow, Constructed, DeclaredIn, Carried, BodyCalls, Reorders, AllReorders, BodyNamesValid,
        BodyCount;
    BodyPrimsOnce(b, LAYER, ROOT, 0);
    BodyWellIndexed(b, LAYER, ROOT, 0);
    BodyPostOrder(b, LAYER, ROOT, 0);
    BodyReordersConserved(b, LAYER, ROOT, 0);
  }

  // ----- which prims a variant lists ----------------------------------------------------------------

  /** A way into nested variants: set name and variant name, outermost first. */
  type Route = seq<(string, string)>

  /** Index `k` is listed by the variant that `route` leads to. */
  ghost predicate Listed(sets: map<string, SetContent>, route: Route, k: int)
    decreases |route|
  {
    route != [] && route[0].0 in sets && ListedIn(sets[route[0].0].variants, route, k)
  }

  ghost predicate ListedIn(variants: map<string, VariantContent>, route: Route, k: int)
    requires route != []
    decreases |route|, 0
  {
    route[0].1 in variants &&
    if |route| == 1 then k in variants[route[0].1].primIndices else Listed(variants[route[0].1].sets, route[1..], k)
  }

  predicate HasSet(b: Body, name: string) {
    match b
    case More(VariantSet(n, _), tail) => n == name || HasSet(tail, name)
    case More(_, tail) => HasSet(tail, name)
    case _ => false
  }

  predicate HasVariant(vs: Variants, name: string) {
    match vs case Variant(n, _, _, rest) => n == name || HasVariant(rest, name) case _ => false
  }

  /** The prim with index `k` is a statement of a variant that `route` leads to.  With
      `strict`, only of one that no later set or variant of the same name replaces. */
  ghost predicate Inside(b: Body, o: Owner, next: nat, route: Route, k: int, strict: bool)
    decreases b
  {
    match b
    case More(Child(p), tail) => Inside(tail, o, next + 1 + PrimCount(p), route, k, strict)
    case More(VariantSet(name, vs), tail) =>
      || (route != [] && route[0].0 == name && (strict ==> !HasSet(tail, name))
          && InsideVariants(vs, SetIndex(o, next), next + FreshForSet(o), route, k, strict))
      || Inside(tail, o, next + FreshForSet(o) + VariantsCount(vs), route, k, strict)
    case More(_, tail) => Inside(tail, o, next, route, k, strict)
    case _ => false
  }

  ghost predicate InsideVariants(vs: Variants, set_: int, next: nat, route: Route, k: int, strict: bool)
    requires route != []
    decreases vs
  {
    match vs
    case Variant(name, _, body, rest) =>
      var o := OfVariant(set_, next);
      || (route[0].1 == name && (strict ==> !HasVariant(rest, name))
          && if |route| == 1 then k in ChildIndices(body, o, next + 1)
              else Inside(body, o, next + 1, route[1..], k, strict))
      || InsideVariants(rest, set_, next + 1 + BodyCount(body, o), route, k, strict)
    case _ => false
  }

  /** A prim is listed by the variant that `route` leads to exactly when it stands inside that
      variant in the text and is not replaced: for every tree, every route and every index. */
  lemma ListedExactly(b: Body, o: Owner, next: nat, route: Route, k: int)
    ensures Listed(Sets(b, o, next, map[]), route, k) <==> Inside(b, o, next, route, k, true)
  {
    SetsListing(b, o, next, map[], route, k);
  }

  lemma {:induction false} SetsListing(b: Body, o: Owner, next: nat, acc: map<string, SetContent>, route: Route, k: int)
    ensures Listed(Sets(b, o, next, acc), route, k) <==>
            (route != [] && !HasSet(b, route[0].0) && Listed(acc, route, k)) || Inside(b, o, next, route, k, true)
    decreases b
  {
    hide VariantMap, InsideVariants, ListedIn, PrimCount, VariantsCount;
    match b
    case More(Child(p), tail) => SetsListing(tail, o, next + 1 + PrimCount(p), acc, route, k);
    case More(VariantSet(name, vs), tail) =>
      var first := next + FreshForSet(o);
      var content := SetContent(SetIndex(o, next), VariantMap(vs, SetIndex(o, next), first, map[]));
      SetsListing(tail, o, first + VariantsCount(vs), acc[name := content], route, k);
      if route != [] && route[0].0 == name {
        VariantListing(vs, SetIndex(o, next), first, map[], route, k);
        ListedInNothing(route, k);
      }
    case More(_, tail) => SetsListing(tail, o, next, acc, route, k);
    case _ =>
  }

  lemma ListedInNothing(route: Route, k: int)
    requires route != []
    ensures !ListedIn(map[], route, k)
  {
  }

  lemma {:induction false} VariantListing(vs: Variants, set_: int, next: nat, acc: map<string, VariantContent>,
      route: Route, k: int)
    requires route != []
    ensures ListedIn(VariantMap(vs, set_, next, acc), route, k) <==>
            (!HasVariant(vs, route[0].1) && ListedIn(acc, route, k)) || InsideVariants(vs, set_, next, route, k, true)
    decreases vs
  {
    hide Sets, Inside, Listed, ChildIndices, Props, BodyCount;
    match vs
    case Variant(name, metas, body, rest) =>
      var o := OfVariant(set_, next);
      var content := VariantContent(metas, ChildIndices(body, o, next + 1), Props(body),
          Sets(body, o, next + 1, map[]));
      VariantListing(rest, set_, next + 1 + BodyCount(body, o), acc[name := content], route, k);
      if route[0].1 == name && |route| > 1 {
        SetsListing(body, o, next + 1, map[], route[1..], k);
        NothingListed(route[1..], k);
      }
    case _ =>
  }

  lemma NothingListed(route: Route, k: int)
    ensures !Listed(map[], route, k)
  {
  }

  predicate DistinctNames(b: Body)
    decreases b
  {
    match b
    case More(VariantSet(name, vs), tail) => !HasSet(tail, name) && DistinctVariantNames(vs) && DistinctNames(tail)
    case More(_, tail) => DistinctNames(tail)
    case _ => true
  }

  predicate DistinctVariantNames(vs: Variants)
    decreases vs
  {
    match vs
    case Variant(name, _, body, rest) => !HasVariant(rest, name) && DistinctNames(body) && DistinctVariantNames(rest)
    case _ => true
  }

  /** With distinct names nothing is replaced. */
  lemma {:induction false} DistinctNamesLoseNothing(b: Body, o: Owner, next: nat, route: Route, k: int)
    requires DistinctNames(b)
    ensures Inside(b, o, next, route, k, true) <==> Inside(b, o, next, route, k, false)
    decreases b
  {
    match b
    case More(Child(p), tail) => DistinctNamesLoseNothing(tail, o, next + 1 + PrimCount(p), route, k);
    case More(VariantSet(name, vs), tail) =>
      if route != [] {
        DistinctVariantsLoseNothing(vs, SetIndex(o, next), next + FreshForSet(o), route, k);
      }
      DistinctNamesLoseNothing(tail, o, next + FreshForSet(o) + VariantsCount(vs), route, k);
    case More(_, tail) => DistinctNamesLoseNothing(tail, o, next, route, k);
    case _ =>
  }

  lemma {:induction false} DistinctVariantsLoseNothing(vs: Variants, set_: int, next: nat, route: Route, k: int)
    requires DistinctVariantNames(vs) && route != []
    ensures InsideVariants(vs, set_, next, route, k, true) <==> InsideVariants(vs, set_, next, route, k, false)
    decreases vs
  {
    match vs
    case Variant(name, _, body, rest) =>
      var o := OfVariant(set_, next);
      if |route| > 1 {
        DistinctNamesLoseNothing(body, o, next + 1, route[1..], k);
      }
      DistinctVariantsLoseNothing(rest, set_, next + 1 + BodyCount(body, o), route, k);
    case _ =>
  }

  // ----- a prim is in one place only -------------------------------------------------------------

  lemma {:induction false} ChildIndexRange(b: Body, o: Owner, next: nat, k: int)
    requires k in ChildIndices(b, o, next)
    ensures next <= k < next + BodyCount(b, o)
    decreases b
  {
    match b
    case More(Child(p), tail) =>
      if k != next {
        ChildIndexRange(tail, o, next + 1 + PrimCount(p), k);
      }
    case More(VariantSet(_, vs), tail) => ChildIndexRange(tail, o, next + FreshForSet(o) + VariantsCount(vs), k);
    case More(_, tail) => ChildIndexRange(tail, o, next, k);
    case _ =>
  }

  lemma {:induction false} InsideRange(b: Body, o: Owner, next: nat, route: Route, k: int)
    requires Inside(b, o, next, route, k, false)
    ensures next <= k < next + BodyCount(b, o)
    decreases b
  {
    match b
    case More(Child(p), tail) => InsideRange(tail, o, next + 1 + PrimCount(p), route, k);
    case More(VariantSet(name, vs), tail) =>
      var first := next + FreshForSet(o);
      if Inside(tail, o, first + VariantsCount(vs), route, k, false) {
        InsideRange(tail, o, first + VariantsCount(vs), route, k);
      } else {
        InsideVariantsRange(vs, SetIndex(o, next), first, route, k);
      }
    case More(_, tail) => InsideRange(tail, o, next, route, k);
  }

  lemma {:induction false} InsideVariantsRange(vs: Variants, set_: int, next: nat, route: Route, k: int)
    requires route != [] && InsideVariants(vs, set_, next, route, k, false)
    ensures next <= k < next + VariantsCount(vs)
    decreases vs
  {
    match vs
    case Variant(name, _, body, rest) =>
      var o := OfVariant(set_, next);
      BodyCountByKind(body, OfVariant(0, 0), o);
      if InsideVariants(rest, set_, next + 1 + BodyCount(body, o), route, k, false) {
        InsideVariantsRange(rest, set_, next + 1 + BodyCount(body, o), route, k);
      } else if |route| == 1 {
        ChildIndexRange(body, o, next + 1, k);
      } else {
        InsideRange(body, o, next + 1, route[1..], k);
      }
  }

  /** No prim is inside two variants. */
  lemma {:induction false} InsideOneVariant(b: Body, o: Owner, next: nat, r: Route, q: Route, k: int)
    requires Inside(b, o, next, r, k, false) && Inside(b, o, next, q, k, false)
    ensures r == q
    decreases b
  {
    hide PrimCount, VariantsCount, InsideVariants;
    match b
    case More(Child(p), tail) => InsideOneVariant(tail, o, next + 1 + PrimCount(p), r, q, k);
    case More(VariantSet(name, vs), tail) =>
      var first := next + FreshForSet(o);
      var after := first + VariantsCount(vs);
      if Inside(tail, o, after, r, k, false) {
        InsideRange(tail, o, after, r, k);
        if !Inside(tail, o, after, q, k, false) {
          InsideVariantsRange(vs, SetIndex(o, next), first, q, k);
        }
        InsideOneVariant(tail, o, after, r, q, k);
      } else {
        InsideVariantsRange(vs, SetIndex(o, next), first, r, k);
        if Inside(tail, o, after, q, k, false) {
          InsideRange(tail, o, after, q, k);
        }
        InsideOneOf(vs, SetIndex(o, next), first, r, q, k);
        assert r == [r[0]] + r[1..] && q == [q[0]] + q[1..];
      }
    case More(_, tail) => InsideOneVariant(tail, o, next, r, q, k);
  }

  lemma {:induction false} InsideOneOf(vs: Variants, set_: int, next: nat, r: Route, q: Route, k: int)
    requires r != [] && q != []
    requires InsideVariants(vs, set_, next, r, k, false) && InsideVariants(vs, set_, next, q, k, false)
    ensures r[0].1 == q[0].1 && r[1..] == q[1..]
    decreases vs
  {
    hide BodyCount, ChildIndices, Inside;
    match vs
    case Variant(name, _, body, rest) =>
      var o := OfVariant(set_, next);
      var after := next + 1 + BodyCount(body, o);
      var rLater := InsideVariants(rest, set_, after, r, k, false);
      var qLater := InsideVariants(rest, set_, after, q, k, false);
      if rLater {
        InsideVariantsRange(rest, set_, after, r, k);
      } else {
        InsideThisRange(body, o, next + 1, r, k);
      }
      if qLater {
        InsideVariantsRange(rest, set_, after, q, k);
      } else {
        InsideThisRange(body, o, next + 1, q, k);
      }
      if rLater {
        InsideOneOf(rest, set_, after, r, q, k);
      } else if |r| > 1 && |q| > 1 {
        InsideOneVariant(body, o, next + 1, r[1..], q[1..], k);
      } else if |r| > 1 {
        DirectOrInside(body, o, next + 1, r[1..], k);
      } else if |q| > 1 {
        DirectOrInside(body, o, next + 1, q[1..], k);
      }
  }

  lemma InsideThisRange(body: Body, o: Owner, first: nat, route: Route, k: int)
    requires route != []
    requires if |route| == 1 then k in ChildIndices(body, o, first) else Inside(body, o, first, route[1..], k, false)
    ensures first <= k < first + BodyCount(body, o)
  {
    if |route| == 1 {
      ChildIndexRange(body, o, first, k);
    } else {
      InsideRange(body, o, first, route[1..], k);
    }
  }

  /** A direct child of a body is in no variant of that body. */
  lemma {:induction false} DirectOrInside(b: Body, o: Owner, next: nat, route: Route, k: int)
    requires k in ChildIndices(b, o, next)
    ensures !Inside(b, o, next, route, k, false)
    decreases b
  {
    hide PrimCount, VariantsCount, InsideVariants;
    match b
    case More(Child(p), tail) =>
      var after := next + 1 + PrimCount(p);
      if Inside(tail, o, after, route, k, false) {
        InsideRange(tail, o, after, route, k);
        DirectOrInside(tail, o, after, route, k);
      }
    case More(VariantSet(_, vs), tail) =>
      var first := next + FreshForSet(o);
      DirectOrInside(tail, o, first + VariantsCount(vs), route, k);
      ChildIndexRange(tail, o, first + VariantsCount(vs), k);
      if route != [] && InsideVariants(vs, SetIndex(o, next), first, route, k, false) {
        InsideVariantsRange(vs, SetIndex(o, next), first, route, k);
      }
    case More(_, tail) => DirectOrInside(tail, o, next, route, k);
  }

  lemma {:induction false} StrictIsInside(b: Body, o: Owner, next: nat, route: Route, k: int)
    ensures Inside(b, o, next, route, k, true) ==> Inside(b, o, next, route, k, false)
    decreases b
  {
    match b
    case More(Child(p), tail) => StrictIsInside(tail, o, next + 1 + PrimCount(p), route, k);
    case More(VariantSet(name, vs), tail) =>
      if route != [] {
        StrictIsInsideVariants(vs, SetIndex(o, next), next + FreshForSet(o), route, k);
      }
      StrictIsInside(tail, o, next + FreshForSet(o) + VariantsCount(vs), route, k);
    case More(_, tail) => StrictIsInside(tail, o, next, route, k);
    case _ =>
  }

  lemma {:induction false} StrictIsInsideVariants(vs: Variants, set_: int, next: nat, route: Route, k: int)
    requires route != []
    ensures InsideVariants(vs, set_, next, route, k, true) ==> InsideVariants(vs, set_, next, route, k, false)
    decreases vs
  {
    match vs
    case Variant(name, _, body, rest) =>
      var o := OfVariant(set_, next);
      if |route| > 1 {
        StrictIsInside(body, o, next + 1, route[1..], k);
      }
      StrictIsInsideVariants(rest, set_, next + 1 + BodyCount(body, o), route, k);
    case _ =>
  }

  /** Whatever names repeat: an index is listed at one route at most, and a direct child's at
      none. */
  lemma ListedOnce(b: Body, o: Owner, next: nat, r: Route, q: Route, k: int)
    requires Listed(Sets(b, o, next, map[]), r, k)
    ensures Listed(Sets(b, o, next, map[]), q, k) ==> r == q
    ensures k !in ChildIndices(b, o, next)
  {
    hide Sets, Listed, ChildIndices, Inside;
    ListedExactly(b, o, next, r, k);
    ListedExactly(b, o, next, q, k);
    StrictIsInside(b, o, next, r, k);
    StrictIsInside(b, o, next, q, k);
    if Listed(Sets(b, o, next, map[]), q, k) {
      InsideOneVariant(b, o, next, r, q, k);
    }
    if k in ChildIndices(b, o, next) {
      DirectOrInside(b, o, next, r, k);
    }
  }

  const PRIM_A := Prim(Def, None, "A", None, Closed)

  /** Two variants of one name, the first with a prim. */
  const TWICE_V := Variant("v", None, More(Child(PRIM_A), Closed), Variant("v", None, Closed, AllClosed))

  lemma PrimIsConstructed()
    ensures exists call :: call in VariantCalls(TWICE_V, 0, "/", 1) && call.index == 2
  {
    var call := PrimCall(PRIM_A, 2, 0, "/", 3);
    assert PrimCalls(PRIM_A, 2, 0, "/", 3) == [call];
    assert call in BodyCalls(More(Child(PRIM_A), Closed), OfVariant(0, 1), "/", 2);
  }

  lemma PrimIsUnlisted(route: Route)
    requires route != []
    ensures !InsideVariants(TWICE_V, 0, 1, route, 2, true)
  {
    assert HasVariant(Variant("v", None, Closed, AllClosed), "v");
    assert !InsideVariants(AllClosed, 0, 4, route, 2, true);
    assert !InsideVariants(Variant("v", None, Closed, AllClosed), 0, 3, route, 2, true);
  }

  /** Two variants of one name: the first one's prim, number 2, is constructed but listed
      nowhere. */
  lemma ReplacedVariantLosesItsPrim()
    ensures var b := More(VariantSet("s", TWICE_V), Closed);
      && (exists call :: call in BodyCalls(b, OfPrim(0), "/", 0) && call.index == 2)
      && Inside(b, OfPrim(0), 0, [("s", "v")], 2, false)
      && forall route :: !Listed(Sets(b, OfPrim(0), 0, map[]), route, 2)
  {
    var b := More(VariantSet("s", TWICE_V), Closed);
    PrimIsConstructed();
    assert BodyCalls(b, OfPrim(0), "/", 0) == VariantCalls(TWICE_V, 0, "/", 1);
    assert ChildIndices(More(Child(PRIM_A), Closed), OfVariant(0, 1), 2) == [2];
    forall route ensures !Listed(Sets(b, OfPrim(0), 0, map[]), route, 2) {
      hide Sets, Listed, InsideVariants;
      ListedExactly(b, OfPrim(0), 0, route, 2);
      if route != [] {
        PrimIsUnlisted(route);
      }
      assert !Inside(Closed, OfPrim(0), 4, route, 2, true);
    }
  }
}
