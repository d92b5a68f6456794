/** The block structure of a USDA layer (src/ascii-parser-entry.cc, ParseBlock and
    ParseVariantSet): tokens, source trees, and the correspondence between the two.
    Metadata blocks, property statements and reorder statements are single tokens.  A statement
    that ends its line took a line end itself or stands before one, a comment or a semicolon.
    What stands behind the last token decides where the input may end, so it is a token too. */
module UsdaSyntax {
  import opened Options
  import opened Texts

  datatype Specifier = Def | Over | Class

  datatype Token =
    | Spec(spec: Specifier)
    | VariantSetWord
    | TypeName(name: string)
    | Quoted(text: string)
    | Metas(metas: string)
    | Open | Close | Equals
    | PropText(prop: string, endsLine: bool)
    | ReorderText(reorder: Reorder, endsLine: bool)
    | Behind(trail: Trail)

  /** Between the last token and the end of the input: blanks of one line, blanks with a line end
      or a semicolon among them, or blanks and comments. */
  datatype Trail = Blanks | Lines | Comments

  datatype Reorder = Reorder(field: string, names: seq<string>)

  datatype Prim = Prim(spec: Specifier, typ: Option<string>, name: string, metas: Option<string>, body: Body)

  /** Statements up to a closing brace.  The loops also stop at the end of the input, so a
      body may be `Cut`: its closing brace is missing. */
  datatype Body = Closed | Cut | More(head: Stmt, tail: Body)

  datatype Stmt =
    | Prop(prop: string, endsLine: bool)
    | ReorderStmt(reorder: Reorder, endsLine: bool)
    | Child(prim: Prim)
    | VariantSet(name: string, variants: Variants)

  datatype Variants = AllClosed | AllCut | Variant(name: string, metas: Option<string>, body: Body, rest: Variants)

  // ----- the text of a tree -------------------------------------------------------------

  function TypeText(typ: Option<string>): seq<Token> {
    match typ case Some(t) => [TypeName(t)] case None => []
  }

  function MetasText(metas: Option<string>): seq<Token> {
    match metas case Some(m) => [Metas(m)] case None => []
  }

  function HeadText(p: Prim): seq<Token> {
    [Spec(p.spec)] + TypeText(p.typ) + [Quoted(p.name)] + MetasText(p.metas) + [Open]
  }

  function PrimText(p: Prim): seq<Token> {
    HeadText(p) + BodyText(p.body)
  }

  function BodyText(b: Body): seq<Token> {
    match b
    case Closed => [Close]
    case Cut => []
    case More(head, tail) => StmtText(head) + BodyText(tail)
  }

  function StmtText(s: Stmt): seq<Token> {
    match s
    case Prop(p, ends) => [PropText(p, ends)]
    case ReorderStmt(r, ends) => [ReorderText(r, ends)]
    case Child(p) => PrimText(p)
    case VariantSet(name, vs) => SetHeadText(name) + VariantsText(vs)
  }

  /** `variantSet "name" = {` */
  function SetHeadText(name: string): seq<Token> { [VariantSetWord, Quoted(name), Equals, Open] }

  function VariantHeadText(name: string, metas: Option<string>): seq<Token> {
    [Quoted(name)] + MetasText(metas) + [Open]
  }

  function VariantsText(vs: Variants): seq<Token> {
    match vs
    case AllClosed => [Close]
    case AllCut => []
    case Variant(name, metas, body, rest) => VariantHeadText(name, metas) + BodyText(body) + VariantsText(rest)
  }

  // ----- where the input may end -----------------------------------------------------------

  /** The statement loops differ in what they skip: a prim's loop skips blanks, the others
      comments as well. */
  datatype Place = InPrim | InVariant | InLayer

  /** What follows a place in the input: nothing, only a trail, or more tokens. */
  datatype Rest = Nothing | Only(trail: Trail) | Tokens

  predicate Passes(place: Place, trail: Trail) { place.InPrim? ==> !trail.Comments? }

  function Skipped(rest: Rest, place: Place): Rest {
    if rest.Only? && Passes(place, rest.trail) then Nothing else rest
  }

  function RestAt(ts: seq<Token>, p: nat): Rest
    requires p <= |ts|
  {
    if p == |ts| then Nothing else if p + 1 == |ts| && ts[p].Behind? then Only(ts[p].trail) else Tokens
  }

  /** The part ends where a closing brace is missing. */
  predicate BodyCut(b: Body) {
    match b case Closed => false case Cut => true case More(_, tail) => BodyCut(tail)
  }

  predicate VariantsCut(vs: Variants) {
    match vs case AllClosed => false case AllCut => true case Variant(_, _, _, rest) => VariantsCut(rest)
  }

  predicate StmtCut(s: Stmt) {
    match s case Child(p) => BodyCut(p.body) case VariantSet(_, vs) => VariantsCut(vs) case _ => false
  }

  /** What is left behind a statement with `rest` behind its text: a loop that met the end of the
      input has skipped the trail, and nothing is skipped behind a variant set. */
  function LeftBehind(s: Stmt, rest: Rest, place: Place): Rest {
    var left := if StmtCut(s) then Nothing else rest;
    if s.VariantSet? then left else Skipped(left, place)
  }

  /** In a prim a property or reorder statement ends its line, or the closing brace or the end of
      the input follows it. */
  predicate EndsItsLine(s: Stmt, tail: Body, rest: Rest) {
    (s.Prop? || s.ReorderStmt?) && !s.endsLine ==> tail.Closed? || (tail.Cut? && rest != Only(Blanks))
  }

  /** The part may end as it does, with `rest` behind its text; `here` is what is left of that
      when nothing of the body comes. */
  predicate BodyEnds(b: Body, place: Place, here: Rest, rest: Rest) {
    match b
    case Closed => true
    case Cut => here.Nothing?
    case More(head, tail) =>
      var next := if tail.Cut? then rest else Tokens;
      && StmtEnds(head, next) && (place.InPrim? ==> EndsItsLine(head, tail, rest))
      && BodyEnds(tail, place, LeftBehind(head, next, place), rest)
  }

  predicate StmtEnds(s: Stmt, rest: Rest) {
    match s
    case Child(p) => BodyEnds(p.body, InPrim, Skipped(rest, InPrim), rest)
    case VariantSet(_, vs) => VariantsEnd(vs, rest)
    case _ => true
  }

  predicate VariantsEnd(vs: Variants, rest: Rest) {
    match vs
    case AllClosed => true
    case AllCut => !rest.Tokens?
    case Variant(_, _, body, more) =>
      var next := if more.AllCut? then rest else Tokens;
      BodyEnds(body, InVariant, next, next) && VariantsEnd(more, rest)
  }

  // ----- reading ------------------------------------------------------------------------

  predicate IsAt(ts: seq<Token>, p: nat, t: Token) {
    p < |ts| && ts[p] == t
  }

  function ReadType(ts: seq<Token>, p: nat): (r: (Option<string>, nat))
    requires p <= |ts|
    ensures p <= r.1 <= |ts|
  {
    if p < |ts| && ts[p].TypeName? then (Some(ts[p].name), p + 1) else (None, p)
  }

  function ReadMetas(ts: seq<Token>, p: nat): (r: (Option<string>, nat))
    requires p <= |ts|
    ensures p <= r.1 <= |ts|
  {
    if p < |ts| && ts[p].Metas? then (Some(ts[p].metas), p + 1) else (None, p)
  }

  /** A block head: the prim with an empty body, and the position after its brace. */
  function ReadHead(ts: seq<Token>, p: nat): (r: Option<(Prim, nat)>)
    requires p <= |ts|
    ensures r.Some? ==> p < r.value.1 <= |ts|
  {
    if p >= |ts| || !ts[p].Spec? then None
    else
      var (typ, q) := ReadType(ts, p + 1);
      if q >= |ts| || !ts[q].Quoted? then None
      else
        var (metas, m) := ReadMetas(ts, q + 1);
        if IsAt(ts, m, Open) then Some((Prim(ts[p].spec, typ, ts[q].text, metas, Cut), m + 1)) else None
  }

  function ReadVariantHead(ts: seq<Token>, p: nat): (r: Option<(string, Option<string>, nat)>)
    requires p <= |ts|
    ensures r.Some? ==> p < r.value.2 <= |ts|
  {
    if p >= |ts| || !ts[p].Quoted? then None
    else
      var (metas, m) := ReadMetas(ts, p + 1);
      if IsAt(ts, m, Open) then Some((ts[p].text, metas, m + 1)) else None
  }

  /** The position behind what a loop skips. */
  function Past(ts: seq<Token>, p: nat, place: Place): (q: nat)
    requires p <= |ts|
    ensures p <= q <= |ts| && RestAt(ts, q) == Skipped(RestAt(ts, p), place)
  {
    if RestAt(ts, p).Only? && Passes(place, ts[p].trail) then p + 1 else p
  }

  function PastStmt(ts: seq<Token>, s: Stmt, p: nat, place: Place): (q: nat)
    requires p <= |ts|
    ensures p <= q <= |ts|
  {
    if s.VariantSet? then p else Past(ts, p, place)
  }

  /** The statement at `p` ends its line, or the closing brace or the end of the input follows. */
  predicate LineEnded(ts: seq<Token>, p: nat) {
    p < |ts| && (ts[p].PropText? || ts[p].ReorderText?) && !ts[p].endsLine ==>
      p + 1 == |ts| || ts[p + 1] == Close || (RestAt(ts, p + 1).Only? && RestAt(ts, p + 1) != Only(Blanks))
  }

  function ReadPrim(ts: seq<Token>, p: nat): (r: Option<(Prim, nat)>)
    requires p <= |ts|
    ensures r.Some? ==> p < r.value.1 <= |ts|
    decreases |ts| - p, 0
  {
    match ReadHead(ts, p)
    case None => None
    case Some(h) =>
      match ReadBody(ts, Past(ts, h.1, InPrim), InPrim)
      case None => None
      case Some(b) => Some((h.0.(body := b.0), b.1))
  }

  function ReadVariantSet(ts: seq<Token>, p: nat): (r: Option<(Stmt, nat)>)
    requires p <= |ts|
    ensures r.Some? ==> p < r.value.1 <= |ts| && r.value.0.VariantSet?
    decreases |ts| - p, 0
  {
    if p + 3 < |ts| && ts[p] == VariantSetWord && ts[p + 1].Quoted? && ts[p + 2] == Equals && ts[p + 3] == Open then
      match ReadVariants(ts, Past(ts, p + 4, InVariant))
      case None => None
      case Some(vs) => Some((VariantSet(ts[p + 1].text, vs.0), vs.1))
    else None
  }

  function ReadStmt(ts: seq<Token>, p: nat): (r: Option<(Stmt, nat)>)
    requires p < |ts|
    ensures r.Some? ==> p < r.value.1 <= |ts|
    decreases |ts| - p, 1
  {
    match ts[p]
    case PropText(t, ends) => Some((Prop(t, ends), p + 1))
    case ReorderText(o, ends) => Some((ReorderStmt(o, ends), p + 1))
    case VariantSetWord => ReadVariantSet(ts, p)
    case Spec(_) => (match ReadPrim(ts, p) case Some(c) => Some((Child(c.0), c.1)) case None => None)
    case _ => None
  }

  function ReadBody(ts: seq<Token>, p: nat, place: Place): (r: Option<(Body, nat)>)
    requires p <= |ts|
    ensures r.Some? ==> p <= r.value.1 <= |ts|
    decreases |ts| - p, 2
  {
    if p == |ts| then Some((Cut, p))
    else if ts[p] == Close then Some((Closed, p + 1))
    else
      match ReadStmt(ts, p)
      case None => None
      case Some(s) =>
        if place.InPrim? && !LineEnded(ts, p) then None
        else
          match ReadBody(ts, PastStmt(ts, s.0, s.1, place), place)
          case None => None
          case Some(b) => Some((More(s.0, b.0), b.1))
  }

  function ReadVariants(ts: seq<Token>, p: nat): (r: Option<(Variants, nat)>)
    requires p <= |ts|
    ensures r.Some? ==> p <= r.value.1 <= |ts|
    decreases |ts| - p, 2
  {
    if p == |ts| then Some((AllCut, p))
    else if ts[p] == Close then Some((AllClosed, p + 1))
    else
      match ReadVariantHead(ts, p)
      case None => None
      case Some(h) =>
        match ReadBody(ts, h.2, InVariant)
        case None => None
        case Some(b) =>
          match ReadVariants(ts, Past(ts, b.1, InVariant))
          case None => None
          case Some(vs) => Some((Variant(h.0, h.1, b.0, vs.0), vs.1))
  }

  // ----- small facts about texts and ends ---------------------------------------------------

  lemma StmtTextFirst(s: Stmt)
    ensures StmtText(s) != [] && StmtText(s)[0] != Close && !StmtText(s)[0].Behind?
  {
  }

  lemma BodyTextEmpty(b: Body)
    ensures BodyText(b) == [] <==> b.Cut?
    ensures BodyText(b) != [] ==> !BodyText(b)[0].Behind?
  {
    if b.More? {
      StmtTextFirst(b.head);
    }
  }

  lemma VariantsTextEmpty(vs: Variants)
    ensures VariantsText(vs) == [] <==> vs.AllCut?
    ensures VariantsText(vs) != [] ==> !VariantsText(vs)[0].Behind?
  {
  }

  /** Where a text stands that is not empty, more tokens come. */
  lemma TokensAt(ts: seq<Token>, p: nat, t: seq<Token>)
    requires StandsAt(ts, p, t) && t != [] && !t[0].Behind?
    ensures RestAt(ts, p) == Tokens
  {
    ElementAt(ts, p, t, 0);
  }

  /** A part that is cut needs the end of the input. */
  lemma {:induction false} CutNeedsEnd(b: Body, place: Place)
    ensures BodyEnds(b, place, Tokens, Tokens) ==> !BodyCut(b)
    decreases b
  {
    match b
    case More(head, tail) =>
      StmtCutNeedsEnd(head);
      CutNeedsEnd(tail, place);
    case _ =>
  }

  lemma {:induction false} StmtCutNeedsEnd(s: Stmt)
    ensures StmtEnds(s, Tokens) ==> !StmtCut(s)
    decreases s
  {
    match s
    case Child(p) => CutNeedsEnd(p.body, InPrim);
    case VariantSet(_, vs) => VariantsCutNeedEnd(vs);
    case _ =>
  }

  lemma {:induction false} VariantsCutNeedEnd(vs: Variants)
    ensures VariantsEnd(vs, Tokens) ==> !VariantsCut(vs)
    decreases vs
  {
    if vs.Variant? {
      VariantsCutNeedEnd(vs.rest);
    }
  }

  // ----- what is read is what was written ------------------------------------------------

  lemma HeadSound(ts: seq<Token>, p: nat)
    requires p <= |ts| && ReadHead(ts, p).Some?
    ensures var h := ReadHead(ts, p).value; StandsAt(ts, p, HeadText(h.0)) && h.1 == p + |HeadText(h.0)|
  {
    var h := ReadHead(ts, p).value;
    assert ts[p..h.1] == HeadText(h.0);
  }

  lemma VariantHeadSound(ts: seq<Token>, p: nat)
    requires p <= |ts| && ReadVariantHead(ts, p).Some?
    ensures var h := ReadVariantHead(ts, p).value; var t := VariantHeadText(h.0, h.1);
      StandsAt(ts, p, t) && h.2 == p + |t|
  {
    var h := ReadVariantHead(ts, p).value;
    assert ts[p..h.2] == VariantHeadText(h.0, h.1);
  }

  lemma HeadComplete(ts: seq<Token>, p: nat, prim: Prim)
    requires StandsAt(ts, p, HeadText(prim))
    ensures ReadHead(ts, p) == Some((prim.(body := Cut), p + |HeadText(prim)|))
  {
    var t := HeadText(prim);
    forall k | 0 <= k < |t| ensures ts[p + k] == t[k] {
      ElementAt(ts, p, t, k);
    }
    var a := 1 + |TypeText(prim.typ)|;
    assert t[0] == Spec(prim.spec) && t[a] == Quoted(prim.name) && t[|t| - 1] == Open;
    assert prim.typ.Some? ==> t[1] == TypeName(prim.typ.value);
    assert prim.metas.Some? ==> t[a + 1] == Metas(prim.metas.value);
    assert ts[p + 0] == t[0] && ts[p + 1] == t[1] && ts[p + a] == t[a] && ts[p + (a + 1)] == t[a + 1];
    assert ts[p + (|t| - 1)] == t[|t| - 1];
  }

  lemma VariantHeadComplete(ts: seq<Token>, p: nat, name: string, metas: Option<string>)
    requires StandsAt(ts, p, VariantHeadText(name, metas))
    ensures ReadVariantHead(ts, p) == Some((name, metas, p + |VariantHeadText(name, metas)|))
  {
    var t := VariantHeadText(name, metas);
    forall k | 0 <= k < |t| ensures ts[p + k] == t[k] {
      ElementAt(ts, p, t, k);
    }
    assert ts[p + 0] == t[0] && ts[p + 1] == t[1] && ts[p + (|t| - 1)] == t[|t| - 1];
  }

  /** What reading a part from `p` to `e` means: its text stands there, the input may end behind
      it as it does, and a part that is cut has read on to the end of the input. */
  ghost predicate BodyRead(ts: seq<Token>, p: nat, place: Place, b: Body, e: nat)
    requires p <= |ts|
  {
    var q := p + |BodyText(b)|;
    StandsAt(ts, p, BodyText(b)) && BodyEnds(b, place, RestAt(ts, p), RestAt(ts, q))
        && e == if BodyCut(b) then |ts| else q
  }

  ghost predicate StmtRead(ts: seq<Token>, p: nat, s: Stmt, e: nat) {
    var q := p + |StmtText(s)|;
    StandsAt(ts, p, StmtText(s)) && StmtEnds(s, RestAt(ts, q)) && e == if StmtCut(s) then |ts| else q
  }

  ghost predicate VariantsRead(ts: seq<Token>, p: nat, vs: Variants, e: nat) {
    var q := p + |VariantsText(vs)|;
    StandsAt(ts, p, VariantsText(vs)) && VariantsEnd(vs, RestAt(ts, q)) && e == if VariantsCut(vs) then |ts| else q
  }

  /** Behind the end of the input only a cut body is read. */
  lemma NothingAtEnd(ts: seq<Token>, place: Place, b: Body, e: nat)
    ensures BodyRead(ts, |ts|, place, b, e) <==> b.Cut? && e == |ts|
  {
    BodyTextEmpty(b);
  }

  lemma NoVariantsAtEnd(ts: seq<Token>, vs: Variants, e: nat)
    ensures VariantsRead(ts, |ts|, vs, e) <==> vs.AllCut? && e == |ts|
  {
    VariantsTextEmpty(vs);
  }

  /** What is left at the start matters to an empty body only. */
  lemma HereMatters(b: Body, place: Place, here: Rest, left: Rest, rest: Rest)
    ensures if b.Cut? then BodyEnds(b, place, here, rest) <==> here.Nothing?
            else BodyEnds(b, place, here, rest) <==> BodyEnds(b, place, left, rest)
  {
  }

  /** A body behind a place from which the loop skips what it skips. */
  lemma BodyBehind(ts: seq<Token>, h: nat, n: nat, place: Place, b: Body, e: nat, left: Rest)
    requires h <= n <= |ts| && (n == h || (n == |ts| && !RestAt(ts, h).Tokens?)) && RestAt(ts, n) == left
    ensures BodyRead(ts, n, place, b, e) <==>
      var q := h + |BodyText(b)|;
      StandsAt(ts, h, BodyText(b)) && BodyEnds(b, place, left, RestAt(ts, q)) && e == if BodyCut(b) then |ts| else q
  {
    hide BodyEnds;
    BodyTextEmpty(b);
    NothingAtEnd(ts, place, b, e);
    HereMatters(b, place, left, left, RestAt(ts, n));
    if b.Cut? {
      HereMatters(b, place, left, left, RestAt(ts, h));
    } else if StandsAt(ts, h, BodyText(b)) {
      TokensAt(ts, h, BodyText(b));
    }
  }

  lemma PrimRead(ts: seq<Token>, p: nat, prim: Prim, e: nat)
    ensures StmtRead(ts, p, Child(prim), e) <==>
      var h := p + |HeadText(prim)|;
      StandsAt(ts, p, HeadText(prim)) && BodyRead(ts, Past(ts, h, InPrim), InPrim, prim.body, e)
  {
    hide HeadText, BodyText, BodyEnds, BodyRead;
    StandsJoined(ts, p, HeadText(prim), BodyText(prim.body));
    BodyTextEmpty(prim.body);
    assert StmtText(Child(prim)) == HeadText(prim) + BodyText(prim.body);
    if StandsAt(ts, p, HeadText(prim)) {
      var h := p + |HeadText(prim)|;
      BodyBehind(ts, h, Past(ts, h, InPrim), InPrim, prim.body, e, Skipped(RestAt(ts, h), InPrim));
      if StandsAt(ts, h, BodyText(prim.body)) {
        var rest := RestAt(ts, h + |BodyText(prim.body)|);
        HereMatters(prim.body, InPrim, Skipped(RestAt(ts, h), InPrim), Skipped(rest, InPrim), rest);
      }
    }
  }

  lemma VariantsBehind(ts: seq<Token>, h: nat, vs: Variants, e: nat)
    requires h <= |ts|
    ensures VariantsRead(ts, Past(ts, h, InVariant), vs, e) <==> VariantsRead(ts, h, vs, e)
  {
    hide VariantsText;
    VariantsTextEmpty(vs);
    NoVariantsAtEnd(ts, vs, e);
    if VariantsText(vs) != [] && StandsAt(ts, h, VariantsText(vs)) {
      TokensAt(ts, h, VariantsText(vs));
    }
  }

  lemma SetRead(ts: seq<Token>, p: nat, name: string, vs: Variants, e: nat)
    ensures StmtRead(ts, p, VariantSet(name, vs), e) <==>
      StandsAt(ts, p, SetHeadText(name)) && VariantsRead(ts, Past(ts, p + 4, InVariant), vs, e)
  {
    hide VariantsEnd, VariantsText;
    StandsJoined(ts, p, SetHeadText(name), VariantsText(vs));
    if StandsAt(ts, p, SetHeadText(name)) {
      VariantsBehind(ts, p + 4, vs, e);
    }
  }

  /** Where a statement that starts at `p` is read to. */
  function StmtTo(ts: seq<Token>, p: nat, s: Stmt): nat {
    if StmtCut(s) then |ts| else p + |StmtText(s)|
  }

  lemma LineRead(ts: seq<Token>, p: nat, s: Stmt, tail: Body)
    requires StandsAt(ts, p, StmtText(s)) && StandsAt(ts, p + |StmtText(s)|, BodyText(tail))
    requires tail.Cut? ==> !RestAt(ts, p + |StmtText(s)|).Tokens?
    ensures p < |ts| && (LineEnded(ts, p) <==> EndsItsLine(s, tail, RestAt(ts, p + |StmtText(s)| + |BodyText(tail)|)))
  {
    var m := p + |StmtText(s)|;
    StmtTextFirst(s);
    ElementAt(ts, p, StmtText(s), 0);
    BodyTextEmpty(tail);
    if s.Prop? || s.ReorderStmt? {
      assert m == p + 1;
      match tail
      case Cut =>
      case Closed => ElementAt(ts, m, BodyText(tail), 0);
      case More(head, _) =>
        StmtTextFirst(head);
        ElementAt(ts, m, BodyText(tail), 0);
    } else {
      assert !StmtText(s)[0].PropText? && !StmtText(s)[0].ReorderText?;
    }
  }

  lemma TailRest(ts: seq<Token>, m: nat, tail: Body)
    requires StandsAt(ts, m, BodyText(tail))
    ensures RestAt(ts, m) == if tail.Cut? then RestAt(ts, m + |BodyText(tail)|) else Tokens
  {
    BodyTextEmpty(tail);
    if !tail.Cut? {
      TokensAt(ts, m, BodyText(tail));
    }
  }

  lemma LeftIs(ts: seq<Token>, m: nat, place: Place, s: Stmt)
    requires m <= |ts| && StmtEnds(s, RestAt(ts, m))
    ensures var e := if StmtCut(s) then |ts| else m; var n := PastStmt(ts, s, e, place);
      && m <= n && (n == m || (n == |ts| && !RestAt(ts, m).Tokens?))
      && RestAt(ts, n) == LeftBehind(s, RestAt(ts, m), place)
      && (LeftBehind(s, RestAt(ts, m), place).Nothing? ==> !RestAt(ts, m).Tokens?)
  {
    StmtCutNeedsEnd(s);
    hide StmtEnds;
  }

  lemma MoreRead(ts: seq<Token>, p: nat, place: Place, head: Stmt, tail: Body, e: nat)
    requires p <= |ts|
    ensures BodyRead(ts, p, place, More(head, tail), e) <==>
      && StmtRead(ts, p, head, StmtTo(ts, p, head)) && (place.InPrim? ==> LineEnded(ts, p))
      && BodyRead(ts, PastStmt(ts, head, StmtTo(ts, p, head), place), place, tail, e)
  {
    hide StmtText, StmtEnds, EndsItsLine, LineEnded, PastStmt, LeftBehind, StmtCut, RestAt;
    StandsJoined(ts, p, StmtText(head), BodyText(tail));
    if StandsAt(ts, p, StmtText(head)) && StmtEnds(head, RestAt(ts, p + |StmtText(head)|)) {
      var m := p + |StmtText(head)|;
      var left := LeftBehind(head, RestAt(ts, m), place);
      LeftIs(ts, m, place, head);
      BodyBehind(ts, m, PastStmt(ts, head, StmtTo(ts, p, head), place), place, tail, e, left);
      if StandsAt(ts, m, BodyText(tail)) {
        TailRest(ts, m, tail);
        if tail.Cut? ==> left.Nothing? {
          LineRead(ts, p, head, tail);
        }
      }
    } else if StandsAt(ts, p, StmtText(head) + BodyText(tail)) {
      TailRest(ts, p + |StmtText(head)|, tail);
    }
  }

  /** Where the body of a variant that starts at `p` is read to. */
  function BodyTo(ts: seq<Token>, p: nat, b: Body): nat {
    if BodyCut(b) then |ts| else p + |BodyText(b)|
  }

  lemma MoreVariantsRest(ts: seq<Token>, m: nat, more: Variants)
    requires StandsAt(ts, m, VariantsText(more))
    ensures RestAt(ts, m) == if more.AllCut? then RestAt(ts, m + |VariantsText(more)|) else Tokens
  {
    VariantsTextEmpty(more);
    if !more.AllCut? {
      TokensAt(ts, m, VariantsText(more));
    }
  }

  /** Behind a body that has been read, the next variants are read from its text's end. */
  lemma VariantsFrom(ts: seq<Token>, a: nat, body: Body, more: Variants, e: nat)
    requires a <= |ts| && BodyRead(ts, a, InVariant, body, BodyTo(ts, a, body))
    ensures VariantsRead(ts, Past(ts, BodyTo(ts, a, body), InVariant), more, e) <==>
            VariantsRead(ts, a + |BodyText(body)|, more, e)
  {
    hide BodyEnds, BodyText, VariantsText;
    var m := a + |BodyText(body)|;
    VariantsBehind(ts, m, more, e);
    if BodyCut(body) && RestAt(ts, m).Tokens? {
      CutNeedsEnd(body, InVariant);
      BodyTextEmpty(body);
      HereMatters(body, InVariant, RestAt(ts, a), Tokens, RestAt(ts, m));
    }
  }

  lemma VariantRead(ts: seq<Token>, p: nat, name: string, metas: Option<string>, body: Body, more: Variants, e: nat)
    ensures VariantsRead(ts, p, Variant(name, metas, body, more), e) <==>
      && StandsAt(ts, p, VariantHeadText(name, metas))
      && var a := p + |VariantHeadText(name, metas)|; var b := BodyTo(ts, a, body);
      && BodyRead(ts, a, InVariant, body, b) && VariantsRead(ts, Past(ts, b, InVariant), more, e)
  {
    hide VariantHeadText, BodyEnds, BodyText, RestAt, Past;
    var h := VariantHeadText(name, metas);
    var t := VariantsText(more);
    assert VariantsText(Variant(name, metas, body, more)) == h + (BodyText(body) + t) == h + BodyText(body) + t;
    StandsJoined(ts, p, h, BodyText(body) + t);
    var a := p + |h|;
    StandsJoined(ts, a, BodyText(body), t);
    if StandsAt(ts, p, h) && StandsAt(ts, a, BodyText(body)) {
      var m := a + |BodyText(body)|;
      BodyTextEmpty(body);
      HereMatters(body, InVariant, RestAt(ts, a), RestAt(ts, m), RestAt(ts, m));
      if BodyRead(ts, a, InVariant, body, BodyTo(ts, a, body)) {
        VariantsFrom(ts, a, body, more, e);
      }
      if StandsAt(ts, m, t) {
        MoreVariantsRest(ts, m, more);
      }
    }
  }

  // ----- exactness ------------------------------------------------------------------------------

  lemma {:induction false} BodySound(ts: seq<Token>, p: nat, place: Place)
    requires p <= |ts| && ReadBody(ts, p, place).Some?
    ensures var b := ReadBody(ts, p, place).value; BodyRead(ts, p, place, b.0, b.1)
    decreases |ts| - p, 2
  {
    hide BodyRead, StmtRead, PastStmt, LineEnded, ReadStmt, StmtTo;
    var b := ReadBody(ts, p, place).value;
    if p == |ts| {
      NothingAtEnd(ts, place, b.0, b.1);
    } else if ts[p] == Close {
      ClosedRead(ts, p, place);
    } else {
      StmtSound(ts, p);
      var s := ReadStmt(ts, p).value;
      StmtReadTo(ts, p, s.0, s.1);
      BodySound(ts, PastStmt(ts, s.0, s.1, place), place);
      MoreRead(ts, p, place, s.0, b.0.tail, b.1);
    }
  }

  lemma ClosedRead(ts: seq<Token>, p: nat, place: Place)
    requires p < |ts| && ts[p] == Close
    ensures BodyRead(ts, p, place, Closed, p + 1) && VariantsRead(ts, p, AllClosed, p + 1)
  {
  }

  lemma StmtReadTo(ts: seq<Token>, p: nat, s: Stmt, e: nat)
    requires StmtRead(ts, p, s, e)
    ensures e == StmtTo(ts, p, s)
  {
  }

  lemma {:induction false} StmtSound(ts: seq<Token>, p: nat)
    requires p < |ts| && ReadStmt(ts, p).Some?
    ensures var s := ReadStmt(ts, p).value; StmtRead(ts, p, s.0, s.1)
    decreases |ts| - p, 1
  {
    hide BodyRead, VariantsRead, ReadHead, HeadText, ReadBody, ReadVariants;
    var s := ReadStmt(ts, p).value;
    if ts[p].Spec? {
      hide StmtRead;
      HeadSound(ts, p);
      var h := ReadHead(ts, p).value;
      BodySound(ts, Past(ts, h.1, InPrim), InPrim);
      assert HeadText(h.0) == HeadText(s.0.prim) by { HeadOnly(h.0, s.0.prim.body); }
      PrimRead(ts, p, s.0.prim, s.1);
    } else if ts[p] == VariantSetWord {
      hide StmtRead;
      assert StandsAt(ts, p, SetHeadText(s.0.name));
      VariantsSound(ts, Past(ts, p + 4, InVariant));
      SetRead(ts, p, s.0.name, s.0.variants, s.1);
    }
  }

  lemma HeadOnly(prim: Prim, body: Body)
    ensures HeadText(prim) == HeadText(prim.(body := body))
  {
  }

  lemma {:induction false} VariantsSound(ts: seq<Token>, p: nat)
    requires p <= |ts| && ReadVariants(ts, p).Some?
    ensures var vs := ReadVariants(ts, p).value; VariantsRead(ts, p, vs.0, vs.1)
    decreases |ts| - p, 2
  {
    hide BodyRead, VariantsRead, ReadVariantHead, VariantHeadText, ReadBody;
    var vs := ReadVariants(ts, p).value;
    if p == |ts| {
      NoVariantsAtEnd(ts, vs.0, vs.1);
    } else if ts[p] == Close {
      ClosedRead(ts, p, InVariant);
    } else {
      VariantHeadSound(ts, p);
      var h := ReadVariantHead(ts, p).value;
      BodySound(ts, h.2, InVariant);
      var b := ReadBody(ts, h.2, InVariant).value;
      BodyReadTo(ts, h.2, b.0, b.1);
      VariantsSound(ts, Past(ts, b.1, InVariant));
      VariantRead(ts, p, h.0, h.1, b.0, vs.0.rest, vs.1);
    }
  }

  lemma BodyReadTo(ts: seq<Token>, p: nat, b: Body, e: nat)
    requires p <= |ts| && BodyRead(ts, p, InVariant, b, e)
    ensures e == BodyTo(ts, p, b)
  {
  }

  lemma {:induction false} BodyComplete(ts: seq<Token>, p: nat, place: Place, b: Body, e: nat)
    requires p <= |ts| && BodyRead(ts, p, place, b, e)
    ensures ReadBody(ts, p, place) == Some((b, e))
    decreases b
  {
    hide StmtRead, PastStmt, LineEnded, ReadStmt, BodyEnds;
    match b
    case Closed => ElementAt(ts, p, BodyText(b), 0);
    case Cut => CutRead(ts, p, place, e);
    case More(head, tail) =>
      hide BodyRead, BodyText;
      MoreRead(ts, p, place, head, tail, e);
      var m := StmtTo(ts, p, head);
      NotClosed(ts, p, head, m);
      StmtComplete(ts, p, head, m);
      BodyComplete(ts, PastStmt(ts, head, m, place), place, tail, e);
  }

  lemma CutRead(ts: seq<Token>, p: nat, place: Place, e: nat)
    requires p <= |ts| && BodyRead(ts, p, place, Cut, e)
    ensures p == e == |ts|
  {
  }

  lemma NotClosed(ts: seq<Token>, p: nat, s: Stmt, e: nat)
    requires StmtRead(ts, p, s, e)
    ensures p < |ts| && StmtText(s) != [] && ts[p] == StmtText(s)[0] && ts[p] != Close
  {
    StmtTextFirst(s);
    ElementAt(ts, p, StmtText(s), 0);
  }

  lemma {:induction false} StmtComplete(ts: seq<Token>, p: nat, s: Stmt, e: nat)
    requires StmtRead(ts, p, s, e)
    ensures p < |ts| && ReadStmt(ts, p) == Some((s, e))
    decreases s
  {
    hide ReadHead, ReadBody, ReadVariants, BodyRead, VariantsRead;
    NotClosed(ts, p, s, e);
    match s
    case Prop(_, _) =>
    case ReorderStmt(_, _) =>
    case Child(prim) =>
      PrimRead(ts, p, prim, e);
      HeadComplete(ts, p, prim);
      BodyComplete(ts, Past(ts, p + |HeadText(prim)|, InPrim), InPrim, prim.body, e);
    case VariantSet(name, vs) =>
      SetRead(ts, p, name, vs, e);
      SetHeadStands(ts, p, name);
      VariantsComplete(ts, Past(ts, p + 4, InVariant), vs, e);
  }

  lemma SetHeadStands(ts: seq<Token>, p: nat, name: string)
    requires StandsAt(ts, p, SetHeadText(name))
    ensures p + 3 < |ts| && ts[p + 1] == Quoted(name) && ts[p + 2] == Equals && ts[p + 3] == Open
  {
    ElementAt(ts, p, SetHeadText(name), 1);
    ElementAt(ts, p, SetHeadText(name), 2);
    ElementAt(ts, p, SetHeadText(name), 3);
  }

  lemma {:induction false} VariantsComplete(ts: seq<Token>, p: nat, vs: Variants, e: nat)
    requires p <= |ts| && !RestAt(ts, p).Only? && VariantsRead(ts, p, vs, e)
    ensures ReadVariants(ts, p) == Some((vs, e))
    decreases vs
  {
    hide ReadVariantHead, ReadBody, BodyRead;
    match vs
    case AllClosed => ElementAt(ts, p, VariantsText(vs), 0);
    case AllCut =>
    case Variant(name, metas, body, more) =>
      hide VariantsRead, VariantsText;
      VariantRead(ts, p, name, metas, body, more, e);
      ElementAt(ts, p, VariantHeadText(name, metas), 0);
      VariantHeadComplete(ts, p, name, metas);
      var a := p + |VariantHeadText(name, metas)|;
      BodyComplete(ts, a, InVariant, body, BodyTo(ts, a, body));
      VariantsComplete(ts, Past(ts, BodyTo(ts, a, body), InVariant), more, e);
  }

  lemma PrimIsStmt(ts: seq<Token>, p: nat)
    requires p <= |ts|
    ensures match ReadPrim(ts, p)
      case Some(r) => p < |ts| && ReadStmt(ts, p) == Some((Child(r.0), r.1))
      case None => p < |ts| ==> !(ReadStmt(ts, p).Some? && ReadStmt(ts, p).value.0.Child?)
  {
  }

  /** A prim is read from `p` to `q` exactly when its text stands there and the input may end
      behind it as the text does: with a closing brace missing only at the end of the input, and
      only where the loop has skipped what stands before that. */
  lemma ReadsExactlyTexts(ts: seq<Token>, p: nat, q: nat, prim: Prim)
    requires p <= |ts|
    ensures ReadPrim(ts, p) == Some((prim, q)) <==>
      var e := p + |PrimText(prim)|;
      && StandsAt(ts, p, PrimText(prim)) && StmtEnds(Child(prim), RestAt(ts, e))
      && q == if BodyCut(prim.body) then |ts| else e
  {
    hide StmtEnds, ReadPrim;
    if p < |ts| && ReadPrim(ts, p) == Some((prim, q)) {
      PrimIsStmt(ts, p);
      StmtSound(ts, p);
    }
    if StmtRead(ts, p, Child(prim), q) {
      StmtComplete(ts, p, Child(prim), q);
      PrimIsStmt(ts, p);
    }
  }
}
