/** What parsing a source tree produces, as plain recursive functions over the tree: the
    construct callbacks, the indices, and the contents of variant sets. */
module UsdaMeaning {
  import opened Chars
  import opened Options
  import opened UsdaSyntax

  /** The contents of a variant set and of one variant, as handed to the callback. */
  datatype SetContent = SetContent(index: int, variants: map<string, VariantContent>)

  datatype VariantContent =
    VariantContent(metas: Option<string>, primIndices: seq<int>, props: seq<string>, sets: map<string, SetContent>)

  /** One invocation of the construct callback.  `metas` is the authored block and `reorders`
      the entries that the parser adds to it. */
  datatype Call = Call(path: string, spec: Specifier, typ: Option<string>, name: string, index: int, parent: int,
                       props: seq<string>, metas: Option<string>, reorders: seq<Reorder>,
                       sets: map<string, SetContent>)

  /** Whose statements are being read: a prim's own, or those of a variant of a set.  Prims
      inside a variant get the set as their parent. */
  datatype Owner = OfPrim(prim: int) | OfVariant(set_: int, variant: int)

  function ParentFor(o: Owner): int {
    match o case OfPrim(i) => i case OfVariant(s, _) => s
  }

  /** A variant set among a prim's statements gets a fresh index; one nested in a variant
      shares the index of that variant. */
  function SetIndex(o: Owner, next: nat): int {
    match o case OfPrim(_) => next case OfVariant(_, v) => v
  }

  function FreshForSet(o: Owner): nat {
    match o case OfPrim(_) => 1 case OfVariant(_, _) => 0
  }

  const ROOT := "/"

  function JoinPath(path: string, name: string): string {
    if path == ROOT then path + name else path + "/" + name
  }

  // ----- how many indices a part takes ----------------------------------------------------

  function BodyCount(b: Body, o: Owner): nat
    decreases b
  {
    match b
    case More(Child(p), tail) => 1 + PrimCount(p) + BodyCount(tail, o)
    case More(VariantSet(_, vs), tail) => FreshForSet(o) + VariantsCount(vs) + BodyCount(tail, o)
    case More(_, tail) => BodyCount(tail, o)
    case _ => 0
  }

  /** Not counting the prim's own index, which its enclosing block assigns. */
  function PrimCount(p: Prim): nat
    decreases p
  {
    BodyCount(p.body, OfPrim(0))
  }

  function VariantsCount(vs: Variants): nat
    decreases vs
  {
    match vs
    case Variant(_, _, body, rest) => 1 + BodyCount(body, OfVariant(0, 0)) + VariantsCount(rest)
    case _ => 0
  }

  // ----- properties, reorders, listed prims, variant sets ----------------------------------

  function Props(b: Body): seq<string> {
    match b
    case More(Prop(p, _), tail) => [p] + Props(tail)
    case More(_, tail) => Props(tail)
    case _ => []
  }

  /** A body's own reorder statements: those in its variants count, those in its child prims
      do not. */
  function Reorders(b: Body): seq<Reorder>
    decreases b
  {
    match b
    case More(ReorderStmt(r, _), tail) => [r] + Reorders(tail)
    case More(VariantSet(_, vs), tail) => VariantReorders(vs) + Reorders(tail)
    case More(_, tail) => Reorders(tail)
    case _ => []
  }

  function VariantReorders(vs: Variants): seq<Reorder>
    decreases vs
  {
    match vs
    case Variant(_, _, body, rest) => Reorders(body) + VariantReorders(rest)
    case _ => []
  }

  /** The indices of the prims that are statements of `b` itself. */
  function ChildIndices(b: Body, o: Owner, next: nat): seq<int>
    decreases b
  {
    match b
    case More(Child(p), tail) => [next] + ChildIndices(tail, o, next + 1 + PrimCount(p))
    case More(VariantSet(_, vs), tail) => ChildIndices(tail, o, next + FreshForSet(o) + VariantsCount(vs))
    case More(_, tail) => ChildIndices(tail, o, next)
    case _ => []
  }

  /** The variant sets of `b` added to `acc`; a repeated name replaces the earlier set. */
  function Sets(b: Body, o: Owner, next: nat, acc: map<string, SetContent>): map<string, SetContent>
    decreases b
  {
    match b
    case More(Child(p), tail) => Sets(tail, o, next + 1 + PrimCount(p), acc)
    case More(VariantSet(name, vs), tail) =>
      Sets(tail, o, next + FreshForSet(o) + VariantsCount(vs),
           acc[name := SetContent(SetIndex(o, next),
                                  VariantMap(vs, SetIndex(o, next), next + FreshForSet(o), map[]))])
    case More(_, tail) => Sets(tail, o, next, acc)
    case _ => acc
  }

  function VariantMap(vs: Variants, set_: int, next: nat, acc: map<string, VariantContent>): map<string, VariantContent>
    decreases vs
  {
    match vs
    case Variant(name, metas, body, rest) =>
      var o := OfVariant(set_, next);
      VariantMap(rest, set_, next + 1 + BodyCount(body, o),
                 acc[name := VariantContent(metas, ChildIndices(body, o, next + 1), Props(body),
                                            Sets(body, o, next + 1, map[]))])
    case _ => acc
  }

  // ----- the callbacks, in order -------------------------------------------------------------

  function PrimCall(p: Prim, index: int, parent: int, path: string, next: nat): Call {
    Call(JoinPath(path, p.name), p.spec, p.typ, p.name, index, parent, Props(p.body), p.metas, Reorders(p.body),
         Sets(p.body, OfPrim(index), next, map[]))
  }

  /** Post-order: everything inside a prim is constructed before the prim. */
  function PrimCalls(p: Prim, index: int, parent: int, path: string, next: nat): seq<Call>
    decreases p, 1
  {
    BodyCalls(p.body, OfPrim(index), JoinPath(path, p.name), next) + [PrimCall(p, index, parent, path, next)]
  }

  function BodyCalls(b: Body, o: Owner, path: string, next: nat): seq<Call>
    decreases b, 0
  {
    match b
    case More(Child(p), tail) =>
      PrimCalls(p, next, ParentFor(o), path, next + 1) + BodyCalls(tail, o, path, next + 1 + PrimCount(p))
    case More(VariantSet(_, vs), tail) =>
      VariantCalls(vs, SetIndex(o, next), path, next + FreshForSet(o))
      + BodyCalls(tail, o, path, next + FreshForSet(o) + VariantsCount(vs))
    case More(_, tail) => BodyCalls(tail, o, path, next)
    case _ => []
  }

  function VariantCalls(vs: Variants, set_: int, path: string, next: nat): seq<Call>
    decreases vs, 0
  {
    match vs
    case Variant(_, _, body, rest) =>
      var o := OfVariant(set_, next);
      BodyCalls(body, o, path, next + 1) + VariantCalls(rest, set_, path, next + 1 + BodyCount(body, o))
    case _ => []
  }

  /** Only the kind of owner matters for the number of indices. */
  lemma {:induction false} BodyCountByKind(b: Body, o1: Owner, o2: Owner)
    requires o1.OfPrim? == o2.OfPrim?
    ensures BodyCount(b, o1) == BodyCount(b, o2)
    decreases b
  {
    match b
    case More(_, tail) => BodyCountByKind(tail, o1, o2);
    case _ =>
  }

  // ----- the depth that the parser counts -------------------------------------------------------

  const MAX_DEPTH: nat := 512

  function Max(a: nat, b: nat): nat { if a < b then b else a }

  /** The deepest level at which a prim or a variant set of this part is parsed, when the part
      itself is at level `d`. */
  function PrimDepth(p: Prim, d: nat): nat
    decreases p
  {
    Max(d, BodyDepth(p.body, d, false))
  }

  function BodyDepth(b: Body, d: nat, inVariant: bool): nat
    decreases b
  {
    match b
    case More(Child(p), tail) => Max(PrimDepth(p, d + 1), BodyDepth(tail, d, inVariant))
    case More(VariantSet(_, vs), tail) =>
      Max(VariantsDepth(vs, if inVariant then d + 1 else d), BodyDepth(tail, d, inVariant))
    case More(_, tail) => BodyDepth(tail, d, inVariant)
    case _ => d
  }

  function VariantsDepth(vs: Variants, d: nat): nat
    decreases vs
  {
    match vs
    case Variant(_, _, body, rest) => Max(BodyDepth(body, d, true), VariantsDepth(rest, d))
    case _ => d
  }

  // ----- a whole layer -----------------------------------------------------------------------------

  /** A layer is a body without braces: root prims, which have no parent, and reorders. */
  const LAYER := OfPrim(-1)

  predicate IsLayer(b: Body) {
    match b
    case More(Child(_), tail) => IsLayer(tail)
    case More(ReorderStmt(_, _), tail) => IsLayer(tail)
    case _ => b.Cut?
  }

  /** Blanks and comments pass in front of a root prim and behind the last. */
  function ReadLayer(ts: seq<Token>, p: nat): Option<Body>
    requires p <= |ts|
  {
    match ReadBody(ts, Past(ts, p, InLayer), InLayer)
    case Some(b) => if IsLayer(b.0) then Some(b.0) else None
    case None => None
  }

  /** Root prims are parsed at level 0. */
  function LayerDepth(b: Body): nat {
    match b
    case More(Child(p), tail) => Max(PrimDepth(p, 0), LayerDepth(tail))
    case More(_, tail) => LayerDepth(tail)
    case _ => 0
  }

  // ----- names ------------------------------------------------------------------------------------

  /** ValidatePrimElementName (src/prim-types.cc). */
  predicate ValidName(name: string) {
    && name != ""
    && (IsLetter(name[0]) || name[0] == '_')
    && forall i :: 1 <= i < |name| ==> IsLetter(name[i]) || IsDigit(name[i]) || name[i] == '_'
  }

  predicate PrimNamesValid(p: Prim)
    decreases p
  {
    ValidName(p.name) && BodyNamesValid(p.body)
  }

  predicate BodyNamesValid(b: Body)
    decreases b
  {
    match b
    case More(Child(p), tail) => PrimNamesValid(p) && BodyNamesValid(tail)
    case More(VariantSet(_, vs), tail) => VariantNamesValid(vs) && BodyNamesValid(tail)
    case More(_, tail) => BodyNamesValid(tail)
    case _ => true
  }

  predicate VariantNamesValid(vs: Variants)
    decreases vs
  {
    match vs
    case Variant(_, _, body, rest) => BodyNamesValid(body) && VariantNamesValid(rest)
    case _ => true
  }
}
