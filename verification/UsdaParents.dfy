/** Whose child each prim is: the parent and the path of every callback, for a whole layer. */
module UsdaParents {
  import opened Options
  import opened UsdaSyntax
  import opened UsdaMeaning
  import opened UsdaLaws

  // ----- where a prim stands ----------------------------------------------------------------------

  /** `k` is a prim statement of a variant of the set with number `s`.  A set among a prim's
      statements takes the next number, one inside a variant has the number of that variant. */
  ghost predicate InSet(b: Body, o: Owner, next: nat, s: int, k: int)
    decreases b
  {
    match b
    case More(Child(p), tail) => InSet(tail, o, next + 1 + PrimCount(p), s, k)
    case More(VariantSet(_, vs), tail) =>
      var number := match o case OfPrim(_) => next case OfVariant(_, v) => v;
      var first := if o.OfPrim? then next + 1 else next;
      InVariants(vs, number, first, s, k) || InSet(tail, o, first + VariantsCount(vs), s, k)
    case More(_, tail) => InSet(tail, o, next, s, k)
    case _ => false
  }

  ghost predicate InVariants(vs: Variants, number: int, next: nat, s: int, k: int)
    decreases vs
  {
    match vs
    case Variant(_, _, body, rest) =>
      var o := OfVariant(number, next);
      || (s == number && k in ChildIndices(body, o, next + 1))
      || InSet(body, o, next + 1, s, k)
      || InVariants(rest, number, next + 1 + BodyCount(body, o), s, k)
    case _ => false
  }

  /** `d` is the callback of the prim `q`. */
  ghost predicate CallOf(d: Call, q: Prim) {
    0 <= d.index && d.name == q.name && d.sets == Sets(q.body, OfPrim(d.index), d.index + 1, map[])
  }

  /** The callback `d` of the prim `q` is the one that `c` stands under: `c` continues its path by
      its own name, and has it as its parent or, in a variant, the set. */
  ghost predicate Under(c: Call, d: Call, q: Prim)
    requires CallOf(d, q)
  {
    && c.path == d.path + "/" + c.name
    && if c.index in ChildIndices(q.body, OfPrim(d.index), d.index + 1) then c.parent == d.index
       else InSet(q.body, OfPrim(d.index), d.index + 1, c.parent, c.index)
  }

  ghost predicate HasParent(c: Call, calls: seq<Call>) {
    exists d: Call, q: Prim :: d in calls && CallOf(d, q) && Under(c, d, q)
  }

  /** The same for the statements of a body at `path`: a statement of its own, or deeper. */
  ghost predicate Placed(c: Call, calls: seq<Call>, b: Body, o: Owner, path: string, next: nat) {
    || (c.path == Step(path, c.name)
        && (if c.index in ChildIndices(b, o, next) then
              c.parent == (match o case OfPrim(i) => i case OfVariant(s, _) => s)
            else InSet(b, o, next, c.parent, c.index)))
    || HasParent(c, calls)
  }

  function Step(path: string, name: string): string {
    if path == "/" then "/" + name else path + "/" + name
  }

  lemma {:induction false} InSetRange(b: Body, o: Owner, next: nat, s: int, k: int)
    requires InSet(b, o, next, s, k)
    ensures next <= k < next + BodyCount(b, o)
    decreases b
  {
    match b
    case More(Child(p), tail) => InSetRange(tail, o, next + 1 + PrimCount(p), s, k);
    case More(VariantSet(_, vs), tail) =>
      var first := next + FreshForSet(o);
      if InSet(tail, o, first + VariantsCount(vs), s, k) {
        InSetRange(tail, o, first + VariantsCount(vs), s, k);
      } else {
        InVariantsRange(vs, SetIndex(o, next), first, s, k);
      }
    case More(_, tail) => InSetRange(tail, o, next, s, k);
  }

  lemma {:induction false} InVariantsRange(vs: Variants, number: int, next: nat, s: int, k: int)
    requires InVariants(vs, number, next, s, k)
    ensures next < k < next + VariantsCount(vs)
    decreases vs
  {
    match vs
    case Variant(_, _, body, rest) =>
      var o := OfVariant(number, next);
      BodyCountByKind(body, OfVariant(0, 0), o);
      if InVariants(rest, number, next + 1 + BodyCount(body, o), s, k) {
        InVariantsRange(rest, number, next + 1 + BodyCount(body, o), s, k);
      } else if InSet(body, o, next + 1, s, k) {
        InSetRange(body, o, next + 1, s, k);
      } else {
        ChildIndexRange(body, o, next + 1, k);
      }
  }

  // ----- every callback is placed -----------------------------------------------------------------

  lemma MoreCalls(c: Call, few: seq<Call>, many: seq<Call>)
    requires HasParent(c, few) && forall d :: d in few ==> d in many
    ensures HasParent(c, many)
  {
    hide CallOf;
    var d, q :| d in few && CallOf(d, q) && Under(c, d, q);
  }

  /** The prim's own callback, or one under a callback of the same prim. */
  lemma {:induction false} PrimPlaced(p: Prim, index: nat, parent: int, path: string, c: Call)
    requires path != "" && PrimNamesValid(p) && c in PrimCalls(p, index, parent, path, index + 1)
    ensures c == PrimCall(p, index, parent, path, index + 1)
            || HasParent(c, PrimCalls(p, index, parent, path, index + 1))
    decreases p, 1
  {
    hide BodyCalls, ChildIndices, Sets, Props, Reorders, InSet, BodyNamesValid;
    var calls := PrimCalls(p, index, parent, path, index + 1);
    var own := PrimCall(p, index, parent, path, index + 1);
    var inner := BodyCalls(p.body, OfPrim(index), own.path, index + 1);
    if c != own {
      assert c in inner && own.path != "/" && own.path != "";
      BodyPlaced(p.body, OfPrim(index), own.path, index + 1, c);
      if HasParent(c, inner) {
        MoreCalls(c, inner, calls);
      } else {
        assert CallOf(own, p) && Under(c, own, p);
        assert own in calls;
      }
    }
  }

  lemma {:induction false} BodyPlaced(b: Body, o: Owner, path: string, next: nat, c: Call)
    requires path != "" && BodyNamesValid(b) && c in BodyCalls(b, o, path, next)
    ensures Placed(c, BodyCalls(b, o, path, next), b, o, path, next)
    decreases b, 0
  {
    hide PrimCalls, VariantCalls, HasParent, InVariants, PrimNamesValid, VariantNamesValid;
    var calls := BodyCalls(b, o, path, next);
    match b
    case More(Child(p), tail) =>
      var after := next + 1 + PrimCount(p);
      var own := PrimCalls(p, next, ParentFor(o), path, next + 1);
      if c in own {
        PrimPlaced(p, next, ParentFor(o), path, c);
        if HasParent(c, own) {
          MoreCalls(c, own, calls);
        }
      } else {
        TailPlaced(tail, o, path, after, c, calls);
        if InSet(tail, o, after, c.parent, c.index) {
          InSetRange(tail, o, after, c.parent, c.index);
        }
      }
    case More(VariantSet(_, vs), tail) =>
      var first := next + FreshForSet(o);
      var after := first + VariantsCount(vs);
      if c in VariantCalls(vs, SetIndex(o, next), path, first) {
        VariantsPlaced(vs, SetIndex(o, next), path, first, c);
        if HasParent(c, VariantCalls(vs, SetIndex(o, next), path, first)) {
          MoreCalls(c, VariantCalls(vs, SetIndex(o, next), path, first), calls);
        } else {
          InVariantsRange(vs, SetIndex(o, next), first, c.parent, c.index);
          if c.index in ChildIndices(tail, o, after) {
            ChildIndexRange(tail, o, after, c.index);
          }
        }
      } else {
        TailPlaced(tail, o, path, after, c, calls);
      }
    case More(_, tail) => TailPlaced(tail, o, path, next, c, calls);
  }

  lemma TailPlaced(tail: Body, o: Owner, path: string, next: nat, c: Call, calls: seq<Call>)
    requires path != "" && BodyNamesValid(tail) && c in BodyCalls(tail, o, path, next)
    requires forall d :: d in BodyCalls(tail, o, path, next) ==> d in calls
    ensures Placed(c, calls, tail, o, path, next)
    decreases tail, 1
  {
    hide BodyCalls, HasParent, InSet, ChildIndices;
    BodyPlaced(tail, o, path, next, c);
    if HasParent(c, BodyCalls(tail, o, path, next)) {
      MoreCalls(c, BodyCalls(tail, o, path, next), calls);
    }
  }

  lemma {:induction false} VariantsPlaced(vs: Variants, number: int, path: string, next: nat, c: Call)
    requires path != "" && VariantNamesValid(vs) && c in VariantCalls(vs, number, path, next)
    ensures (c.path == Step(path, c.name) && InVariants(vs, number, next, c.parent, c.index))
            || HasParent(c, VariantCalls(vs, number, path, next))
    decreases vs, 0
  {
    hide BodyCalls, HasParent, InSet, ChildIndices, BodyNamesValid;
    var calls := VariantCalls(vs, number, path, next);
    match vs
    case Variant(_, _, body, rest) =>
      var o := OfVariant(number, next);
      var after := next + 1 + BodyCount(body, o);
      if c in BodyCalls(body, o, path, next + 1) {
        BodyPlaced(body, o, path, next + 1, c);
        if HasParent(c, BodyCalls(body, o, path, next + 1)) {
          MoreCalls(c, BodyCalls(body, o, path, next + 1), calls);
        }
      } else {
        VariantsPlaced(rest, number, path, after, c);
        if HasParent(c, VariantCalls(rest, number, path, after)) {
          MoreCalls(c, VariantCalls(rest, number, path, after), calls);
        }
      }
  }

  // ----- the sets that list a prim ------------------------------------------------------------------

  /** The index of the set that the last step of a route leads to. */
  function IndexOn(sets: map<string, SetContent>, route: Route): Option<int>
    decreases |route|
  {
    if route == [] || route[0].0 !in sets then None
    else if |route| == 1 then Some(sets[route[0].0].index)
    else if route[0].1 !in sets[route[0].0].variants then None
    else IndexOn(sets[route[0].0].variants[route[0].1].sets, route[1..])
  }

  /** What a variant lists stands in the set that holds the variant, by the set's index. */
  lemma {:induction false} ListedInSet(b: Body, o: Owner, next: nat, acc: map<string, SetContent>, route: Route, k: int)
    requires Listed(Sets(b, o, next, acc), route, k)
    ensures var i := IndexOn(Sets(b, o, next, acc), route);
      i.Some? && ((Listed(acc, route, k) && i == IndexOn(acc, route)) || InSet(b, o, next, i.value, k))
    decreases b
  {
    hide VariantMap, InVariants, PrimCount, VariantsCount;
    match b
    case More(Child(p), tail) => ListedInSet(tail, o, next + 1 + PrimCount(p), acc, route, k);
    case More(VariantSet(name, vs), tail) =>
      var first := next + FreshForSet(o);
      var content := SetContent(SetIndex(o, next), VariantMap(vs, SetIndex(o, next), first, map[]));
      ListedInSet(tail, o, first + VariantsCount(vs), acc[name := content], route, k);
      if Listed(acc[name := content], route, k) && route[0].0 == name {
        ListedInVariants(vs, SetIndex(o, next), first, map[], route, k);
      }
    case More(_, tail) => ListedInSet(tail, o, next, acc, route, k);
    case _ => ListedHasIndex(acc, route, k);
  }

  lemma {:induction false} ListedHasIndex(sets: map<string, SetContent>, route: Route, k: int)
    requires Listed(sets, route, k)
    ensures IndexOn(sets, route).Some?
    decreases |route|
  {
    if |route| > 1 {
      ListedHasIndex(sets[route[0].0].variants[route[0].1].sets, route[1..], k);
    }
  }

  lemma {:induction false} ListedInVariants(vs: Variants, number: int, next: nat, acc: map<string, VariantContent>,
      route: Route, k: int)
    requires route != [] && ListedIn(VariantMap(vs, number, next, acc), route, k)
    ensures var entry := VariantMap(vs, number, next, acc)[route[0].1];
      var i := if |route| == 1 then Some(number) else IndexOn(entry.sets, route[1..]);
      (route[0].1 in acc && acc[route[0].1] == entry) || (i.Some? && InVariants(vs, number, next, i.value, k))
    decreases vs
  {
    hide ChildIndices, Sets, InSet, BodyCount, Props;
    match vs
    case Variant(name, metas, body, rest) =>
      var o := OfVariant(number, next);
      var sets := Sets(body, o, next + 1, map[]);
      var content := VariantContent(metas, ChildIndices(body, o, next + 1), Props(body), sets);
      ListedInVariants(rest, number, next + 1 + BodyCount(body, o), acc[name := content], route, k);
      if route[0].1 == name && VariantMap(vs, number, next, acc)[name] == content && |route| > 1 {
        ListedInSet(body, o, next + 1, map[], route[1..], k);
      }
    case _ =>
  }

  /** A prim stands in one set only. */
  lemma {:induction false} InOneSet(b: Body, o: Owner, next: nat, s: int, t: int, k: int)
    requires InSet(b, o, next, s, k) && InSet(b, o, next, t, k)
    ensures s == t && k !in ChildIndices(b, o, next)
    decreases b
  {
    hide PrimCount, VariantsCount, InVariants;
    match b
    case More(Child(p), tail) =>
      InOneSet(tail, o, next + 1 + PrimCount(p), s, t, k);
      InSetRange(tail, o, next + 1 + PrimCount(p), s, k);
    case More(VariantSet(_, vs), tail) =>
      var first := next + FreshForSet(o);
      var after := first + VariantsCount(vs);
      if InSet(tail, o, after, s, k) {
        InSetRange(tail, o, after, s, k);
        if InVariants(vs, SetIndex(o, next), first, t, k) {
          InVariantsRange(vs, SetIndex(o, next), first, t, k);
        }
        InOneSet(tail, o, after, s, t, k);
      } else {
        InVariantsRange(vs, SetIndex(o, next), first, s, k);
        if InSet(tail, o, after, t, k) {
          InSetRange(tail, o, after, t, k);
        }
        InOneOfVariants(vs, SetIndex(o, next), first, s, t, k);
        if k in ChildIndices(tail, o, after) {
          ChildIndexRange(tail, o, after, k);
        }
      }
    case More(_, tail) => InOneSet(tail, o, next, s, t, k);
  }

  lemma {:induction false} InOneOfVariants(vs: Variants, number: int, next: nat, s: int, t: int, k: int)
    requires InVariants(vs, number, next, s, k) && InVariants(vs, number, next, t, k)
    ensures s == t
    decreases vs
  {
    hide BodyCount, ChildIndices, InSet;
    match vs
    case Variant(_, _, body, rest) =>
      var o := OfVariant(number, next);
      var after := next + 1 + BodyCount(body, o);
      if InVariants(rest, number, after, s, k) || InVariants(rest, number, after, t, k) {
        if InVariants(rest, number, after, s, k) {
          InVariantsRange(rest, number, after, s, k);
        } else {
          InVariantsRange(rest, number, after, t, k);
        }
        NotBefore(body, o, next + 1, s, k);
        NotBefore(body, o, next + 1, t, k);
        InOneOfVariants(rest, number, after, s, t, k);
      } else {
        if InSet(body, o, next + 1, s, k) {
          InOneSet(body, o, next + 1, s, s, k);
        }
        if InSet(body, o, next + 1, t, k) {
          InOneSet(body, o, next + 1, t, t, k);
        }
        if InSet(body, o, next + 1, s, k) && InSet(body, o, next + 1, t, k) {
          InOneSet(body, o, next + 1, s, t, k);
        }
      }
  }

  /** What is behind a body is not in it. */
  lemma NotBefore(body: Body, o: Owner, next: nat, s: int, k: int)
    ensures k >= next + BodyCount(body, o) ==> k !in ChildIndices(body, o, next) && !InSet(body, o, next, s, k)
  {
    if k in ChildIndices(body, o, next) {
      ChildIndexRange(body, o, next, k);
    }
    if InSet(body, o, next, s, k) {
      InSetRange(body, o, next, s, k);
    }
  }

  // ----- a whole layer --------------------------------------------------------------------------------

  /** In a layer a callback has no parent if and only if its path is one step below "/".  Every
      other one continues the path of another callback by its own name; a direct statement of that
      prim has the prim's index as its parent, and a statement of one of its variants the number
      of the set. */
  lemma ParentsExactly(b: Body, c: Call)
    requires IsLayer(b) && BodyNamesValid(b) && c in BodyCalls(b, LAYER, ROOT, 0)
    ensures c.parent == -1 <==> c.path == "/" + c.name
    ensures c.parent != -1 ==> HasParent(c, BodyCalls(b, LAYER, ROOT, 0))
  {
    var calls := BodyCalls(b, LAYER, ROOT, 0);
    BodyPlaced(b, LAYER, ROOT, 0, c);
    NoSetsInLayer(b, 0, c.parent, c.index);
    if HasParent(c, calls) {
      var d, q :| d in calls && CallOf(d, q) && Under(c, d, q);
      DeepPath(b, d, c);
      ParentNumber(c, d, q);
    }
  }

  lemma {:induction false} NoSetsInLayer(b: Body, next: nat, s: int, k: int)
    requires IsLayer(b)
    ensures !InSet(b, LAYER, next, s, k)
    decreases b
  {
    match b
    case More(Child(p), tail) => NoSetsInLayer(tail, next + 1 + PrimCount(p), s, k);
    case More(ReorderStmt(_, _), tail) => NoSetsInLayer(tail, next, s, k);
    case _ =>
  }

  /** A path that continues another callback's is deeper than one step. */
  lemma DeepPath(b: Body, d: Call, c: Call)
    requires BodyNamesValid(b) && d in BodyCalls(b, LAYER, ROOT, 0) && c.path == d.path + "/" + c.name
    ensures c.path != "/" + c.name
  {
    BodyPostOrder(b, LAYER, ROOT, 0);
    assert |c.path| == |d.path| + 1 + |c.name|;
  }

  /** A parent is a number that has been taken. */
  lemma ParentNumber(c: Call, d: Call, q: Prim)
    requires CallOf(d, q) && Under(c, d, q)
    ensures c.parent >= 0
  {
    if c.index !in ChildIndices(q.body, OfPrim(d.index), d.index + 1) {
      SetNumberRange(q.body, OfPrim(d.index), d.index + 1, c.parent, c.index);
    }
  }

  lemma {:induction false} SetNumberRange(b: Body, o: Owner, next: nat, s: int, k: int)
    requires InSet(b, o, next, s, k) && (o.OfVariant? ==> o.variant >= 0)
    ensures s >= 0
    decreases b
  {
    match b
    case More(Child(p), tail) => SetNumberRange(tail, o, next + 1 + PrimCount(p), s, k);
    case More(VariantSet(_, vs), tail) =>
      var first := next + FreshForSet(o);
      if InSet(tail, o, first + VariantsCount(vs), s, k) {
        SetNumberRange(tail, o, first + VariantsCount(vs), s, k);
      } else {
        VariantNumberRange(vs, SetIndex(o, next), first, s, k);
      }
    case More(_, tail) => SetNumberRange(tail, o, next, s, k);
  }

  lemma {:induction false} VariantNumberRange(vs: Variants, number: int, next: nat, s: int, k: int)
    requires InVariants(vs, number, next, s, k) && number >= 0
    ensures s >= 0
    decreases vs
  {
    match vs
    case Variant(_, _, body, rest) =>
      var o := OfVariant(number, next);
      if InVariants(rest, number, next + 1 + BodyCount(body, o), s, k) {
        VariantNumberRange(rest, number, next + 1 + BodyCount(body, o), s, k);
      } else if InSet(body, o, next + 1, s, k) {
        SetNumberRange(body, o, next + 1, s, k);
      }
  }

  /** The parent of a prim that is listed is the index of the set that lists it. */
  lemma ListedParent(c: Call, d: Call, q: Prim, route: Route)
    requires CallOf(d, q) && Under(c, d, q) && Listed(d.sets, route, c.index)
    ensures IndexOn(d.sets, route) == Some(c.parent)
  {
    var o, next := OfPrim(d.index), d.index + 1;
    NothingIn(route, c.index);
    ListedInSet(q.body, o, next, map[], route, c.index);
    hide InSet, Sets, Listed, IndexOn, ChildIndices;
    var s := IndexOn(d.sets, route).value;
    InOneSet(q.body, o, next, s, s, c.index);
    InOneSet(q.body, o, next, s, c.parent, c.index);
  }

  lemma NothingIn(route: Route, k: int)
    ensures !Listed(map[], route, k)
  {
  }
}
