/** The stateful parser: a cursor, a stack of prim paths, a list of pending reorder statements
    that nested blocks share, an index allocator and the callbacks made so far. */
module UsdaParser {
  import opened Options
  import opened UsdaSyntax
  import opened UsdaMeaning
  import opened UsdaSteps

  // ----- loop bookkeeping ------------------------------------------------------------------

  /** A loop that started at `p0` with accumulators `s0` and has come to `p` with `s` is on
      its way to the same result. */
  ghost predicate Resumes(accept: Call -> bool, ts: seq<Token>, p0: nat, s0: Snap, p: nat, s: Snap, o: Owner,
      path: string, d: nat)
    requires p0 <= |ts| && p <= |ts|
  {
    var b, c := ReadBody(ts, p0, PlaceOf(o)), ReadBody(ts, p, PlaceOf(o));
    match (b, c)
    case (Some(x), Some(y)) =>
      x.1 == y.1 && Finish(x.0, o, path, s0) == Finish(y.0, o, path, s)
      && (GoodBody(accept, x.0, o, path, s0.next, d) <==> GoodBody(accept, y.0, o, path, s.next, d))
    case (None, None) => true
    case _ => false
  }

  /** The statements from `p` on cannot be parsed successfully. */
  ghost predicate Hopeless(accept: Call -> bool, ts: seq<Token>, p: nat, next: nat, o: Owner, path: string, d: nat)
    requires p <= |ts|
  {
    match ReadBody(ts, p, PlaceOf(o))
    case Some(x) => !GoodBody(accept, x.0, o, path, next, d)
    case None => true
  }

  lemma ResumeProp(accept: Call -> bool, ts: seq<Token>, p0: nat, s0: Snap, p: nat, s: Snap, o: Owner, path: string,
      d: nat)
    requires p0 <= |ts| && p < |ts| && ts[p].PropText? && Resumes(accept, ts, p0, s0, p, s, o, path, d)
    ensures if o.OfPrim? && !LineEnded(ts, p) then Hopeless(accept, ts, p0, s0.next, o, path, d)
            else Resumes(accept, ts, p0, s0, Past(ts, p + 1, PlaceOf(o)), AfterProp(s, ts[p].prop), o, path, d)
  {
    hide LineEnded, Past;
    var stmt := Prop(ts[p].prop, ts[p].endsLine);
    assert ReadStmt(ts, p) == Some((stmt, p + 1));
    var q := Past(ts, p + 1, PlaceOf(o));
    if ReadBody(ts, q, PlaceOf(o)).Some? {
      var tail := ReadBody(ts, q, PlaceOf(o)).value.0;
      FinishProp(ts[p].prop, ts[p].endsLine, tail, o, path, s);
      assert GoodBody(accept, More(stmt, tail), o, path, s.next, d) <==> GoodBody(accept, tail, o, path, s.next, d);
    }
  }

  lemma ResumeReorder(accept: Call -> bool, ts: seq<Token>, p0: nat, s0: Snap, p: nat, s: Snap, o: Owner, path: string,
      d: nat)
    requires p0 <= |ts| && p < |ts| && ts[p].ReorderText? && Resumes(accept, ts, p0, s0, p, s, o, path, d)
    ensures if o.OfPrim? && !LineEnded(ts, p) then Hopeless(accept, ts, p0, s0.next, o, path, d)
            else Resumes(accept, ts, p0, s0, Past(ts, p + 1, PlaceOf(o)), AfterReorder(s, ts[p].reorder), o, path, d)
  {
    hide LineEnded, Past;
    var stmt := ReorderStmt(ts[p].reorder, ts[p].endsLine);
    assert ReadStmt(ts, p) == Some((stmt, p + 1));
    var q := Past(ts, p + 1, PlaceOf(o));
    if ReadBody(ts, q, PlaceOf(o)).Some? {
      var tail := ReadBody(ts, q, PlaceOf(o)).value.0;
      FinishReorder(ts[p].reorder, ts[p].endsLine, tail, o, path, s);
      assert GoodBody(accept, More(stmt, tail), o, path, s.next, d) <==> GoodBody(accept, tail, o, path, s.next, d);
    }
  }

  /** The accumulators behind a property or reorder statement. */
  function AfterLine(s: Snap, tok: Token): Snap
    requires tok.PropText? || tok.ReorderText?
  {
    if tok.PropText? then AfterProp(s, tok.prop) else AfterReorder(s, tok.reorder)
  }

  lemma ResumeLine(accept: Call -> bool, ts: seq<Token>, p0: nat, s0: Snap, p: nat, s: Snap, o: Owner, path: string,
      d: nat)
    requires p0 <= |ts| && p < |ts| && Resumes(accept, ts, p0, s0, p, s, o, path, d)
    requires ts[p].PropText? || ts[p].ReorderText?
    ensures if o.OfPrim? && !LineEnded(ts, p) then Hopeless(accept, ts, p0, s0.next, o, path, d)
            else Resumes(accept, ts, p0, s0, Past(ts, p + 1, PlaceOf(o)), AfterLine(s, ts[p]), o, path, d)
  {
    hide Resumes, Hopeless, LineEnded;
    if ts[p].PropText? {
      ResumeProp(accept, ts, p0, s0, p, s, o, path, d);
    } else {
      ResumeReorder(accept, ts, p0, s0, p, s, o, path, d);
    }
  }

  lemma ResumeChild(accept: Call -> bool, ts: seq<Token>, p0: nat, s0: Snap, p: nat, s: Snap, o: Owner, path: string,
      d: nat)
    requires p0 <= |ts| && p < |ts| && ts[p].Spec? && Resumes(accept, ts, p0, s0, p, s, o, path, d)
    ensures match ReadPrim(ts, p)
      case Some(c) =>
        if GoodPrim(accept, c.0, s.next, ParentFor(o), path, s.next + 1, d + 1)
        then Resumes(accept, ts, p0, s0, Past(ts, c.1, PlaceOf(o)), AfterChild(s, c.0, o, path), o, path, d)
        else Hopeless(accept, ts, p0, s0.next, o, path, d)
      case None => Hopeless(accept, ts, p0, s0.next, o, path, d)
  {
    hide Past, Finish, GoodBody, GoodPrim, PrimCount, PrimCalls;
    assert ReadStmt(ts, p) == match ReadPrim(ts, p) case Some(c) => Some((Child(c.0), c.1)) case None => None;
    if ReadPrim(ts, p).Some? {
      var c := ReadPrim(ts, p).value;
      var q := Past(ts, c.1, PlaceOf(o));
      if ReadBody(ts, q, PlaceOf(o)).Some? {
        var tail := ReadBody(ts, q, PlaceOf(o)).value.0;
        assert ReadBody(ts, p, PlaceOf(o)).value.0 == More(Child(c.0), tail);
        FinishChild(c.0, tail, o, path, s);
        GoodChildStep(accept, c.0, tail, o, path, s.next, d);
      }
    }
  }

  lemma ResumeSet(accept: Call -> bool, ts: seq<Token>, p0: nat, s0: Snap, p: nat, s: Snap, o: Owner, path: string,
      d: nat)
    requires p0 <= |ts| && p < |ts| && ts[p] == VariantSetWord && Resumes(accept, ts, p0, s0, p, s, o, path, d)
    ensures match ReadVariantSet(ts, p)
      case Some(c) =>
        if GoodVariants(accept, c.0.variants, SetIndex(o, s.next), path, s.next + FreshForSet(o), SetLevel(o, d))
        then Resumes(accept, ts, p0, s0, c.1, AfterSet(s, c.0.name, c.0.variants, o, path), o, path, d)
        else Hopeless(accept, ts, p0, s0.next, o, path, d)
      case None => Hopeless(accept, ts, p0, s0.next, o, path, d)
  {
    hide Finish, GoodBody, GoodVariants, VariantsCount, VariantCalls, VariantReorders, VariantMap;
    assert ReadStmt(ts, p) == ReadVariantSet(ts, p);
    if ReadVariantSet(ts, p).Some? {
      var c := ReadVariantSet(ts, p).value;
      if ReadBody(ts, c.1, PlaceOf(o)).Some? {
        var tail := ReadBody(ts, c.1, PlaceOf(o)).value.0;
        assert ReadBody(ts, p, PlaceOf(o)).value.0 == More(c.0, tail);
        FinishSet(c.0.name, c.0.variants, tail, o, path, s);
        GoodSetStep(accept, c.0.name, c.0.variants, tail, o, path, s.next, d);
      }
    }
  }

  /** A token that starts no statement. */
  lemma ResumeNothing(accept: Call -> bool, ts: seq<Token>, p0: nat, s0: Snap, p: nat, s: Snap, o: Owner, path: string,
      d: nat)
    requires p0 <= |ts| && p < |ts| && Resumes(accept, ts, p0, s0, p, s, o, path, d)
    requires !ts[p].PropText? && !ts[p].ReorderText? && !ts[p].Spec? && ts[p] != VariantSetWord && ts[p] != Close
    ensures Hopeless(accept, ts, p0, s0.next, o, path, d)
  {
    assert ReadStmt(ts, p) == None;
  }

  lemma ResumeEnd(accept: Call -> bool, ts: seq<Token>, p0: nat, s0: Snap, p: nat, s: Snap, o: Owner, path: string,
      d: nat)
    requires p0 <= |ts| && p <= |ts| && d <= MAX_DEPTH && Resumes(accept, ts, p0, s0, p, s, o, path, d)
    requires p == |ts| || ts[p] == Close
    ensures ReadBody(ts, p0, PlaceOf(o)).Some?
    ensures var x := ReadBody(ts, p0, PlaceOf(o)).value;
      x.1 == (if p == |ts| then p else p + 1) && Finish(x.0, o, path, s0) == s
          && GoodBody(accept, x.0, o, path, s0.next, d)
    ensures !Hopeless(accept, ts, p0, s0.next, o, path, d)
  {
    var last := ReadBody(ts, p, PlaceOf(o)).value.0;
    GoodEmptyBody(accept, last, o, path, s.next, d);
    assert s.calls + [] == s.calls && s.pending + [] == s.pending && s.props + [] == s.props && s.prims + [] == s.prims;
    assert Finish(last, o, path, s) == s;
  }

  /** The same bookkeeping for the loop over variants. */
  ghost predicate VResumes(accept: Call -> bool, ts: seq<Token>, p0: nat, s0: VSnap, p: nat, s: VSnap, set_: int,
      path: string, d: nat)
    requires p0 <= |ts| && p <= |ts|
  {
    match (ReadVariants(ts, p0), ReadVariants(ts, p))
    case (Some(x), Some(y)) =>
      x.1 == y.1 && FinishVariants(x.0, set_, path, s0) == FinishVariants(y.0, set_, path, s)
      && (GoodVariants(accept, x.0, set_, path, s0.next, d) <==> GoodVariants(accept, y.0, set_, path, s.next, d))
    case (None, None) => true
    case _ => false
  }

  ghost predicate VHopeless(accept: Call -> bool, ts: seq<Token>, p: nat, next: nat, set_: int, path: string, d: nat)
    requires p <= |ts|
  {
    match ReadVariants(ts, p)
    case Some(x) => !GoodVariants(accept, x.0, set_, path, next, d)
    case None => true
  }

  lemma ResumeVariant(accept: Call -> bool, ts: seq<Token>, p0: nat, s0: VSnap, p: nat, s: VSnap, set_: int,
      path: string, d: nat)
    requires p0 <= |ts| && p < |ts| && ts[p] != Close && VResumes(accept, ts, p0, s0, p, s, set_, path, d)
    ensures match ReadVariantHead(ts, p)
      case None => VHopeless(accept, ts, p0, s0.next, set_, path, d)
      case Some(h) =>
        match ReadBody(ts, h.2, InVariant)
        case None => VHopeless(accept, ts, p0, s0.next, set_, path, d)
        case Some(b) =>
          if GoodBody(accept, b.0, OfVariant(set_, s.next), path, s.next + 1, d)
          then VResumes(accept, ts, p0, s0, Past(ts, b.1, InVariant), AfterVariant(s, h.0, h.1, b.0, set_, path), set_,
              path, d)
          else VHopeless(accept, ts, p0, s0.next, set_, path, d)
  {
    hide Past, FinishVariants, Finish, GoodBody, GoodVariants, BodyCount;
    if ReadVariantHead(ts, p).Some? && ReadBody(ts, ReadVariantHead(ts, p).value.2, InVariant).Some? {
      var h := ReadVariantHead(ts, p).value;
      var b := ReadBody(ts, h.2, InVariant).value;
      AfterVariantNext(s, h.0, h.1, b.0, set_, path);
      var q := Past(ts, b.1, InVariant);
      if ReadVariants(ts, q).Some? {
        var rest := ReadVariants(ts, q).value.0;
        FinishVariant(h.0, h.1, b.0, rest, set_, path, s);
        GoodVariantStep(accept, h.0, h.1, b.0, rest, set_, path, s.next, d);
      }
    }
  }

  lemma AfterVariantFields(s: VSnap, name: string, metas: Option<string>, body: Body, set_: int, path: string)
    ensures var o := OfVariant(set_, s.next);
      AfterVariant(s, name, metas, body, set_, path)
      == VSnap(s.next + 1 + BodyCount(body, o), s.calls + BodyCalls(body, o, path, s.next + 1),
               s.pending + Reorders(body),
               s.variants[name := VariantContent(metas, ChildIndices(body, o, s.next + 1), Props(body),
                                                 Sets(body, o, s.next + 1, map[]))])
  {
    FinishFields(body, OfVariant(set_, s.next), path, Snap(s.next + 1, s.calls, s.pending, [], [], map[]));
  }

  lemma AfterVariantNext(s: VSnap, name: string, metas: Option<string>, body: Body, set_: int, path: string)
    ensures AfterVariant(s, name, metas, body, set_, path).next == s.next + 1 + BodyCount(body, OfVariant(set_, s.next))
  {
  }

  lemma VResumeEnd(accept: Call -> bool, ts: seq<Token>, p0: nat, s0: VSnap, p: nat, s: VSnap, set_: int, path: string,
      d: nat)
    requires p0 <= |ts| && p <= |ts| && d <= MAX_DEPTH && VResumes(accept, ts, p0, s0, p, s, set_, path, d)
    requires p == |ts| || ts[p] == Close
    ensures ReadVariants(ts, p0).Some?
    ensures var x := ReadVariants(ts, p0).value;
      x.1 == (if p == |ts| then p else p + 1) && FinishVariants(x.0, set_, path, s0) == s
      && GoodVariants(accept, x.0, set_, path, s0.next, d)
  {
  }

  /** The same bookkeeping for the loop over root prims. */
  ghost predicate LResumes(accept: Call -> bool, ts: seq<Token>, p0: nat, next0: nat, calls0: seq<Call>, p: nat,
      next: nat, calls: seq<Call>)
    requires p0 <= |ts| && p <= |ts|
  {
    match (ReadLayer(ts, p0), ReadLayer(ts, p))
    case (Some(x), Some(y)) =>
      next0 + BodyCount(x, LAYER) == next + BodyCount(y, LAYER)
      && calls0 + BodyCalls(x, LAYER, ROOT, next0) == calls + BodyCalls(y, LAYER, ROOT, next)
      && (GoodLayer(accept, x, next0) <==> GoodLayer(accept, y, next))
    case (None, None) => true
    case _ => false
  }

  ghost predicate LHopeless(accept: Call -> bool, ts: seq<Token>, p: nat, next: nat)
    requires p <= |ts|
  {
    match ReadLayer(ts, p) case Some(x) => !GoodLayer(accept, x, next) case None => true
  }

  lemma LResumeSkip(accept: Call -> bool, ts: seq<Token>, p0: nat, next0: nat, calls0: seq<Call>, p: nat, next: nat,
      calls: seq<Call>)
    requires p0 <= |ts| && p <= |ts| && LResumes(accept, ts, p0, next0, calls0, p, next, calls)
    ensures LResumes(accept, ts, p0, next0, calls0, Past(ts, p, InLayer), next, calls)
  {
    hide ReadBody, GoodLayer, IsLayer;
    assert Past(ts, Past(ts, p, InLayer), InLayer) == Past(ts, p, InLayer);
  }

  lemma LResumeReorder(accept: Call -> bool, ts: seq<Token>, p0: nat, next0: nat, calls0: seq<Call>, p: nat, next: nat,
      calls: seq<Call>)
    requires p0 <= |ts| && p < |ts| && ts[p].ReorderText? && LResumes(accept, ts, p0, next0, calls0, p, next, calls)
    ensures LResumes(accept, ts, p0, next0, calls0, p + 1, next, calls)
  {
    var stmt := ReorderStmt(ts[p].reorder, ts[p].endsLine);
    assert ReadStmt(ts, p) == Some((stmt, p + 1));
    if ReadLayer(ts, p + 1).Some? {
      var tail := ReadLayer(ts, p + 1).value;
      assert ReadLayer(ts, p) == Some(More(stmt, tail));
      assert GoodLayer(accept, More(stmt, tail), next) <==> GoodLayer(accept, tail, next);
    }
  }

  lemma LResumeRoot(accept: Call -> bool, ts: seq<Token>, p0: nat, next0: nat, calls0: seq<Call>, p: nat, next: nat,
      calls: seq<Call>)
    requires p0 <= |ts| && p < |ts| && ts[p].Spec? && LResumes(accept, ts, p0, next0, calls0, p, next, calls)
    ensures match ReadPrim(ts, p)
      case Some(c) =>
        if GoodPrim(accept, c.0, next, -1, ROOT, next + 1, 0)
        then LResumes(accept, ts, p0, next0, calls0, c.1, next + 1 + PrimCount(c.0),
            calls + PrimCalls(c.0, next, -1, ROOT, next + 1))
        else LHopeless(accept, ts, p0, next0)
      case None => LHopeless(accept, ts, p0, next0)
  {
    hide GoodLayer, GoodPrim, PrimCount, PrimCalls;
    assert ReadStmt(ts, p) == match ReadPrim(ts, p) case Some(c) => Some((Child(c.0), c.1)) case None => None;
    if ReadPrim(ts, p).Some? {
      var c := ReadPrim(ts, p).value;
      if ReadLayer(ts, c.1).Some? {
        var tail := ReadLayer(ts, c.1).value;
        assert ReadLayer(ts, p) == Some(More(Child(c.0), tail));
        GoodRootStep(accept, c.0, tail, next);
        var after := next + 1 + PrimCount(c.0);
        assert calls + (PrimCalls(c.0, next, -1, ROOT, next + 1) + BodyCalls(tail, LAYER, ROOT, after))
            == (calls + PrimCalls(c.0, next, -1, ROOT, next + 1)) + BodyCalls(tail, LAYER, ROOT, after);
      }
    }
  }

  lemma LResumeNothing(accept: Call -> bool, ts: seq<Token>, p0: nat, next0: nat, calls0: seq<Call>, p: nat, next: nat,
      calls: seq<Call>)
    requires p0 <= |ts| && p < |ts| && LResumes(accept, ts, p0, next0, calls0, p, next, calls)
    requires !ts[p].ReorderText? && !ts[p].Spec? && Past(ts, p, InLayer) == p
    ensures LHopeless(accept, ts, p0, next0)
  {
    hide ReadPrim, ReadVariantSet;
    if !RestAt(ts, p).Only? && ts[p] != Close && ReadStmt(ts, p).Some? {
      var s := ReadStmt(ts, p).value.0;
      assert s.Prop? || s.VariantSet?;
    }
  }

  lemma LResumeEnd(accept: Call -> bool, ts: seq<Token>, p0: nat, next0: nat, calls0: seq<Call>, next: nat,
      calls: seq<Call>)
    requires p0 <= |ts| && LResumes(accept, ts, p0, next0, calls0, |ts|, next, calls)
    ensures !LHopeless(accept, ts, p0, next0)
    ensures var x := ReadLayer(ts, p0).value;
      next == next0 + BodyCount(x, LAYER) && calls == calls0 + BodyCalls(x, LAYER, ROOT, next0)
  {
  }

  // ----- the parser -------------------------------------------------------------------------

  class Parser {
    const ts: seq<Token>
    const accept: Call -> bool  // the construct callback's verdict
    var pos: nat
    var paths: seq<string>      // the path stack, top last
    var pending: seq<Reorder>   // _pending_reorders
    var next: nat               // the next index that the assign callback returns
    var calls: seq<Call>        // the construct callbacks made so far

    ghost predicate Valid()
      reads this`pos
    {
      pos <= |ts|
    }

    constructor (ts: seq<Token>, accept: Call -> bool)
      ensures Valid() && this.ts == ts && this.accept == accept
      ensures pos == 0 && paths == [] && pending == [] && next == 0 && calls == []
    {
      this.ts, this.accept := ts, accept;
      pos, paths, pending, next, calls := 0, [], [], 0, [];
    }

    /** GetCurrentPrimPath */
    function CurrentPath(): string
      reads this`paths
    {
      if paths == [] then ROOT else paths[|paths| - 1]
    }

    /** _prim_idx_assign_fun: every call gives a fresh index. */
    method AssignIndex() returns (index: int)
      modifies this`next
      ensures index == old(next) && next == old(next) + 1
    {
      index, next := next, next + 1;
    }

    /** SkipWhitespaceAndNewline: comments stop it. */
    method SkipBlanks()
      requires Valid()
      modifies this`pos
      ensures Valid() && pos == Past(ts, old(pos), InPrim)
    {
      if pos + 1 == |ts| && ts[pos].Behind? && !ts[pos].trail.Comments? {
        pos := pos + 1;
      }
    }

    /** SkipCommentAndWhitespaceAndNewline */
    method SkipComments()
      requires Valid()
      modifies this`pos
      ensures Valid() && pos == Past(ts, old(pos), InVariant) == Past(ts, old(pos), InLayer)
    {
      if pos + 1 == |ts| && ts[pos].Behind? {
        pos := pos + 1;
      }
    }

    /** The block head up to its opening brace. */
    method ParseHead(spec: Specifier) returns (ok: bool, head: Prim)
      requires Valid()
      modifies this`pos
      ensures Valid()
      ensures ok <==> ReadHead(ts, old(pos)).Some? && ReadHead(ts, old(pos)).value.0.spec == spec
                      && ValidName(ReadHead(ts, old(pos)).value.0.name)
      ensures ok ==> (head, pos) == ReadHead(ts, old(pos)).value
    {
      ok, head := false, Prim(spec, None, "", None, Cut);
      if pos >= |ts| || !ts[pos].Spec? || ts[pos].spec != spec { return; }
      pos := pos + 1;
      if pos < |ts| && ts[pos].TypeName? {
        head := head.(typ := Some(ts[pos].name));
        pos := pos + 1;
      }
      if pos >= |ts| || !ts[pos].Quoted? || !ValidName(ts[pos].text) { return; }
      head := head.(name := ts[pos].text);
      pos := pos + 1;
      if pos < |ts| && ts[pos].Metas? {
        head := head.(metas := Some(ts[pos].metas));
        pos := pos + 1;
      }
      if pos >= |ts| || ts[pos] != Open { return; }
      pos := pos + 1;
      ok := true;
    }

    /** ParseBlock.  It succeeds exactly on a prim whose nesting stays within the limit, whose
        prim names are valid, whose statements end their lines and whose callbacks all accept; it
        then has made the tree's callbacks, and the path stack and the pending reorders are what
        they were. */
    method ParseBlock(spec: Specifier, index: int, parent: int, depth: nat) returns (ok: bool)
      requires Valid()
      modifies this`pos, this`paths, this`pending, this`next, this`calls
      ensures Valid()
      ensures ok <==> var r := ReadPrim(ts, old(pos));
        r.Some? && r.value.0.spec == spec
            && GoodPrim(accept, r.value.0, index, parent, old(CurrentPath()), old(next), depth)
      ensures ok ==> var p := ReadPrim(ts, old(pos)).value.0;
        pos == ReadPrim(ts, old(pos)).value.1
        && paths == old(paths) && pending == old(pending)
        && next == old(next) + PrimCount(p)
        && calls == old(calls) + PrimCalls(p, index, parent, old(CurrentPath()), old(next))
      ensures old(paths) <= paths && old(pending) <= pending && old(calls) <= calls
      decreases 513 - depth, 4
    {
      hide GoodBody, GoodPrim, PrimDepth, PrimNamesValid, AllAccepted, ReadBody, ReadHead, BodyCalls, Props, Reorders,
          Sets, BodyCount, ValidName, Past;
      ghost var p0, path, next0, calls0 := pos, CurrentPath(), next, calls;
      if depth > MAX_DEPTH {
        TooDeep(accept, ts, pos, index, parent, path, next, depth);
        return false;
      }
      var head;
      ok, head := ParseHead(spec);
      if !ok {
        BadHead(accept, ts, p0, spec, index, parent, path, next, depth);
        return;
      }
      var fullPath := JoinPath(CurrentPath(), head.name);
      paths := paths + [fullPath];
      var mark := |pending|;
      var props, sets;
      ghost var headTo := pos;
      SkipBlanks();
      ok, props, sets := ParsePrimBody(index, depth);
      BlockResult(accept, ts, p0, headTo, head, index, parent, path, next0, depth);
      if !ok { return; }
      var reorders := pending[mark..];
      pending := pending[..mark];
      var call := Call(CurrentPath(), head.spec, head.typ, head.name, index, parent, props, head.metas, reorders, sets);
      assert reorders == Reorders(ReadPrim(ts, p0).value.0.body);
      assert call == PrimCall(ReadPrim(ts, p0).value.0, index, parent, path, next0);
      calls := calls + [call];
      if !accept(call) {
        return false;
      }
      paths := paths[..|paths| - 1];
    }

    /** The loop over root prims in Parse.  It succeeds exactly on a whole layer, and then it has
        made the callbacks of all root prims.  "/" is pushed and stays on the path stack. */
    method ParseLayer() returns (ok: bool)
      requires Valid()
      modifies this`pos, this`paths, this`pending, this`next, this`calls
      ensures Valid()
      ensures ok <==> ReadLayer(ts, old(pos)).Some? && GoodLayer(accept, ReadLayer(ts, old(pos)).value, old(next))
      ensures ok ==> var b := ReadLayer(ts, old(pos)).value;
        pos == |ts| && paths == old(paths) + [ROOT] && pending == old(pending)
        && next == old(next) + BodyCount(b, LAYER)
        && calls == old(calls) + BodyCalls(b, LAYER, ROOT, old(next))
    {
      hide GoodLayer, GoodPrim, LResumes, ReadLayer, ReadPrim, BodyCount, BodyCalls, PrimCount, PrimCalls;
      ghost var p0, next0, calls0 := pos, next, calls;
      paths := paths + [ROOT];
      ok := true;
      LResumeStart(accept, ts, pos, next, calls);
      while pos < |ts|
        invariant Valid() && ok && paths == old(paths) + [ROOT] && pending == old(pending)
        invariant LResumes(accept, ts, p0, next0, calls0, pos, next, calls)
        decreases |ts| - pos
      {
        LResumeSkip(accept, ts, p0, next0, calls0, pos, next, calls);
        SkipComments();
        if pos == |ts| { break; }
        var tok := ts[pos];
        if tok.ReorderText? {
          LResumeReorder(accept, ts, p0, next0, calls0, pos, next, calls);
          pos := pos + 1;
          LResumeSkip(accept, ts, p0, next0, calls0, pos, next, calls);
          SkipComments();
        } else if tok.Spec? {
          LResumeRoot(accept, ts, p0, next0, calls0, pos, next, calls);
          PrimSpec(ts, pos);
          var index := AssignIndex();
          ok := ParseBlock(tok.spec, index, -1, 0);
          if !ok { return; }
        } else {
          LResumeNothing(accept, ts, p0, next0, calls0, pos, next, calls);
          ok := false;
          return;
        }
      }
      LResumeEnd(accept, ts, p0, next0, calls0, next, calls);
    }

    /** ParsePrimProps: a property is added, a reorder statement stays pending. */
    method ParseProps(props: seq<string>) returns (more: seq<string>)
      requires Valid() && pos < |ts| && (ts[pos].PropText? || ts[pos].ReorderText?)
      modifies this`pos, this`pending
      ensures Valid() && pos == old(pos) + 1
      ensures var tok := ts[old(pos)];
        && more == (if tok.PropText? then props + [tok.prop] else props)
        && pending == if tok.PropText? then old(pending) else old(pending) + [tok.reorder]
    {
      var tok := ts[pos];
      more := props;
      if tok.PropText? {
        more := more + [tok.prop];
      } else {
        pending := pending + [tok.reorder];
      }
      pos := pos + 1;
    }

    /** The statement loop of ParseBlock. */
    method ParsePrimBody(index: int, depth: nat) returns (ok: bool, props: seq<string>, sets: map<string, SetContent>)
      requires Valid() && depth <= MAX_DEPTH
      modifies this`pos, this`paths, this`pending, this`next, this`calls
      ensures Valid()
      ensures ok <==> !Hopeless(accept, ts, old(pos), old(next), OfPrim(index), old(CurrentPath()), depth)
      ensures ok ==> var b := ReadBody(ts, old(pos), InPrim).value.0; var o := OfPrim(index);
        pos == ReadBody(ts, old(pos), InPrim).value.1
        && paths == old(paths)
        && next == old(next) + BodyCount(b, o)
        && pending == old(pending) + Reorders(b)
        && calls == old(calls) + BodyCalls(b, o, old(CurrentPath()), old(next))
        && props == Props(b) && sets == Sets(b, o, old(next), map[])
      ensures old(paths) <= paths && old(pending) <= pending && old(calls) <= calls
      decreases 513 - depth, 3
    {
      hide Finish, Resumes, Hopeless, GoodBody, GoodPrim, GoodVariants, ReadBody, ReadPrim, ReadVariantSet,
        ReadVariants, PrimCount, PrimCalls, VariantsCount, VariantCalls, VariantReorders, VariantMap, BodyCount,
        BodyCalls, Reorders, Props, Sets, ChildIndices, LineEnded, Past;
      ghost var o, path, p0 := OfPrim(index), CurrentPath(), pos;
      ghost var s0 := Snap(next, calls, pending, [], [], map[]);
      ghost var prims: seq<int> := [];
      ok, props, sets := true, [], map[];
      ResumeStart(accept, ts, p0, s0, o, path, depth);
      while pos < |ts|
        invariant Valid() && ok && paths == old(paths) && CurrentPath() == path
        invariant old(pending) <= pending && old(calls) <= calls
        invariant Resumes(accept, ts, p0, s0, pos, Snap(next, calls, pending, props, prims, sets), o, path, depth)
        decreases |ts| - pos
      {
        ghost var s := Snap(next, calls, pending, props, prims, sets);
        var tok := ts[pos];
        if tok == Close {
          break;
        } else if tok == VariantSetWord {
          ResumeSet(accept, ts, p0, s0, pos, s, o, path, depth);
          var name, content;
          ok, name, content := ParseSetStmt(OfPrim(index), depth);
          if !ok { return; }
          sets := sets[name := content];
        } else if tok.Spec? {
          ResumeChild(accept, ts, p0, s0, pos, s, o, path, depth);
          PrimSpec(ts, pos);
          var childIndex := AssignIndex();
          ok := ParseBlock(tok.spec, childIndex, index, depth + 1);
          if !ok { return; }
          prims := prims + [childIndex];
          SkipBlanks();
        } else if tok.PropText? || tok.ReorderText? {
          ResumeLine(accept, ts, p0, s0, pos, s, o, path, depth);
          ok := LineEnded(ts, pos);
          props := ParseProps(props);
          if !ok { return; }
          SkipBlanks();
        } else {
          ResumeNothing(accept, ts, p0, s0, pos, s, o, path, depth);
          ok := false;
          return;
        }
      }
      ResumeEnd(accept, ts, p0, s0, pos, Snap(next, calls, pending, props, prims, sets), o, path, depth);
      FinishFields(ReadBody(ts, p0, InPrim).value.0, o, path, s0);
      if pos < |ts| {
        pos := pos + 1;
      }
    }

    /** `variantSet "name" =` */
    method ParseSetHead() returns (ok: bool, name: string)
      requires Valid() && pos < |ts| && ts[pos] == VariantSetWord
      modifies this`pos
      ensures Valid()
      ensures ok <==> old(pos) + 2 < |ts| && ts[old(pos) + 1].Quoted? && ts[old(pos) + 2] == Equals
      ensures ok ==> pos == old(pos) + 3 && name == ts[old(pos) + 1].text
    {
      ok, name := false, "";
      pos := pos + 1;
      if pos >= |ts| || !ts[pos].Quoted? { return; }
      name := ts[pos].text;
      pos := pos + 1;
      if pos >= |ts| || ts[pos] != Equals { return; }
      pos := pos + 1;
      ok := true;
    }

    /** A variantSet statement: among a prim's statements the set gets a fresh index, inside a
        variant it takes the variant's. */
    method ParseSetStmt(o: Owner, depth: nat) returns (ok: bool, name: string, content: SetContent)
      requires Valid() && depth <= MAX_DEPTH && pos < |ts| && ts[pos] == VariantSetWord
      modifies this`pos, this`paths, this`pending, this`next, this`calls
      ensures Valid()
      ensures ok <==> var r := ReadVariantSet(ts, old(pos));
        r.Some? && GoodVariants(accept, r.value.0.variants, SetIndex(o, old(next)), old(CurrentPath()),
                                old(next) + FreshForSet(o), SetLevel(o, depth))
      ensures ok ==> var r := ReadVariantSet(ts, old(pos)).value;
        var vs, set_, first := r.0.variants, SetIndex(o, old(next)), old(next) + FreshForSet(o);
        pos == r.1 && old(pos) < pos && paths == old(paths)
        && next == first + VariantsCount(vs)
        && pending == old(pending) + VariantReorders(vs)
        && calls == old(calls) + VariantCalls(vs, set_, old(CurrentPath()), first)
        && name == r.0.name && content == SetContent(set_, VariantMap(vs, set_, first, map[]))
      ensures old(paths) <= paths && old(pending) <= pending && old(calls) <= calls
      decreases 513 - SetLevel(o, depth), 2
    {
      hide GoodVariants, ReadVariantSet, ReadVariants, VariantsCount, VariantReorders, VariantCalls, VariantMap;
      SetHead(ts, pos);
      content := SetContent(0, map[]);
      ok, name := ParseSetHead();
      if !ok { return; }
      match o
      case OfPrim(_) =>
        var setIndex := AssignIndex();
        ok, content := ParseVariantSet(setIndex, depth);
      case OfVariant(_, variant) =>
        ok, content := ParseVariantSet(variant, depth + 1);
    }

    /** ParseVariantSet, from the opening brace on. */
    method ParseVariantSet(set_: int, depth: nat) returns (ok: bool, content: SetContent)
      requires Valid()
      modifies this`pos, this`paths, this`pending, this`next, this`calls
      ensures Valid()
      ensures ok <==> old(pos) < |ts| && ts[old(pos)] == Open
                      && !VHopeless(accept, ts, Past(ts, old(pos) + 1, InVariant), old(next), set_,
                                    old(CurrentPath()), depth)
      ensures ok ==> var vs := ReadVariants(ts, Past(ts, old(pos) + 1, InVariant)).value.0;
        pos == ReadVariants(ts, Past(ts, old(pos) + 1, InVariant)).value.1
        && paths == old(paths)
        && next == old(next) + VariantsCount(vs)
        && pending == old(pending) + VariantReorders(vs)
        && calls == old(calls) + VariantCalls(vs, set_, old(CurrentPath()), old(next))
        && content == SetContent(set_, VariantMap(vs, set_, old(next), map[]))
      ensures old(paths) <= paths && old(pending) <= pending && old(calls) <= calls
      decreases 513 - depth, 1
    {
      hide FinishVariants, VResumes, GoodVariants, GoodBody, ReadVariants, ReadBody, ReadVariantHead, BodyCount,
          Past, BodyCalls, Reorders, ChildIndices, Props, Sets;
      ok, content := false, SetContent(set_, map[]);
      if depth > MAX_DEPTH {
        SetTooDeep(accept, ts, pos, set_, CurrentPath(), next, depth);
        return;
      }
      if pos >= |ts| || ts[pos] != Open { return; }
      pos := pos + 1;
      SkipComments();
      ghost var path, p0 := CurrentPath(), pos;
      ghost var s0 := VSnap(next, calls, pending, map[]);
      var variants: map<string, VariantContent> := map[];
      ok := true;
      VResumeStart(accept, ts, p0, s0, set_, path, depth);
      while pos < |ts|
        invariant Valid() && ok && paths == old(paths) && CurrentPath() == path
        invariant old(pending) <= pending && old(calls) <= calls
        invariant VResumes(accept, ts, p0, s0, pos, VSnap(next, calls, pending, variants), set_, path, depth)
        decreases |ts| - pos
      {
        if ts[pos] == Close { break; }
        ghost var s := VSnap(next, calls, pending, variants);
        ResumeVariant(accept, ts, p0, s0, pos, s, set_, path, depth);
        var name, metas;
        ok, name, metas := ParseVariantHead();
        if !ok { return; }
        ghost var bodyAt := pos;
        var variantIndex := AssignIndex();
        var props, prims, sets;
        ok, props, prims, sets := ParseVariantBody(set_, variantIndex, depth);
        if !ok { return; }
        AfterVariantFields(s, name, metas, ReadBody(ts, bodyAt, InVariant).value.0, set_, path);
        SkipComments();
        variants := variants[name := VariantContent(metas, prims, props, sets)];
      }
      VResumeEnd(accept, ts, p0, s0, pos, VSnap(next, calls, pending, variants), set_, path, depth);
      FinishVariantFields(ReadVariants(ts, p0).value.0, set_, path, s0);
      if pos < |ts| {
        pos := pos + 1;
      }
      content := SetContent(set_, variants);
    }

    method ParseVariantHead() returns (ok: bool, name: string, metas: Option<string>)
      requires Valid()
      modifies this`pos
      ensures Valid()
      ensures ok <==> ReadVariantHead(ts, old(pos)).Some?
      ensures ok ==> (name, metas, pos) == ReadVariantHead(ts, old(pos)).value
    {
      ok, name, metas := false, "", None;
      if pos >= |ts| || !ts[pos].Quoted? { return; }
      name := ts[pos].text;
      pos := pos + 1;
      if pos < |ts| && ts[pos].Metas? {
        metas := Some(ts[pos].metas);
        pos := pos + 1;
      }
      if pos >= |ts| || ts[pos] != Open { return; }
      pos := pos + 1;
      ok := true;
    }

    /** The statement loop of one variant. */
    method ParseVariantBody(set_: int, variant: int, depth: nat)
      returns (ok: bool, props: seq<string>, prims: seq<int>, sets: map<string, SetContent>)
      requires Valid() && depth <= MAX_DEPTH
      modifies this`pos, this`paths, this`pending, this`next, this`calls
      ensures Valid()
      ensures ok <==> !Hopeless(accept, ts, old(pos), old(next), OfVariant(set_, variant), old(CurrentPath()), depth)
      ensures ok ==> var b := ReadBody(ts, old(pos), InVariant).value.0; var o := OfVariant(set_, variant);
        pos == ReadBody(ts, old(pos), InVariant).value.1
        && paths == old(paths)
        && next == old(next) + BodyCount(b, o)
        && pending == old(pending) + Reorders(b)
        && calls == old(calls) + BodyCalls(b, o, old(CurrentPath()), old(next))
        && props == Props(b) && prims == ChildIndices(b, o, old(next)) && sets == Sets(b, o, old(next), map[])
      ensures old(paths) <= paths && old(pending) <= pending && old(calls) <= calls
      decreases 513 - depth, 0
    {
      hide Finish, Resumes, Hopeless, GoodBody, GoodPrim, GoodVariants, ReadBody, ReadPrim, ReadVariantSet,
        ReadVariants, PrimCount, PrimCalls, VariantsCount, VariantCalls, VariantReorders, VariantMap, BodyCount,
        BodyCalls, Reorders, Props, Sets, ChildIndices, LineEnded, Past;
      ghost var o, path, p0 := OfVariant(set_, variant), CurrentPath(), pos;
      ghost var s0 := Snap(next, calls, pending, [], [], map[]);
      ok, props, prims, sets := true, [], [], map[];
      ResumeStart(accept, ts, p0, s0, o, path, depth);
      while pos < |ts|
        invariant Valid() && ok && paths == old(paths) && CurrentPath() == path
        invariant old(pending) <= pending && old(calls) <= calls
        invariant Resumes(accept, ts, p0, s0, pos, Snap(next, calls, pending, props, prims, sets), o, path, depth)
        decreases |ts| - pos
      {
        ghost var s := Snap(next, calls, pending, props, prims, sets);
        var tok := ts[pos];
        if tok == Close {
          break;
        } else if tok == VariantSetWord {
          ResumeSet(accept, ts, p0, s0, pos, s, o, path, depth);
          var name, content;
          ok, name, content := ParseSetStmt(OfVariant(set_, variant), depth);
          if !ok { return; }
          sets := sets[name := content];
        } else if tok.Spec? {
          ResumeChild(accept, ts, p0, s0, pos, s, o, path, depth);
          PrimSpec(ts, pos);
          var childIndex := AssignIndex();
          ok := ParseBlock(tok.spec, childIndex, set_, depth + 1);
          if !ok { return; }
          prims := prims + [childIndex];
          SkipComments();
        } else if tok.PropText? || tok.ReorderText? {
          ResumeLine(accept, ts, p0, s0, pos, s, o, path, depth);
          props := ParseProps(props);
          SkipComments();
        } else {
          ResumeNothing(accept, ts, p0, s0, pos, s, o, path, depth);
          ok := false;
          return;
        }
      }
      ResumeEnd(accept, ts, p0, s0, pos, Snap(next, calls, pending, props, prims, sets), o, path, depth);
      FinishFields(ReadBody(ts, p0, InVariant).value.0, o, path, s0);
      if pos < |ts| {
        pos := pos + 1;
      }
    }
  }

  // ----- small facts for the methods ----------------------------------------------------------

  lemma TooDeep(accept: Call -> bool, ts: seq<Token>, p: nat, index: int, parent: int, path: string, next: nat, d: nat)
    requires p <= |ts| && d > MAX_DEPTH
    ensures ReadPrim(ts, p).Some? ==> !GoodPrim(accept, ReadPrim(ts, p).value.0, index, parent, path, next, d)
  {
  }

  lemma BadHead(accept: Call -> bool, ts: seq<Token>, p: nat, spec: Specifier, index: int, parent: int, path: string,
      next: nat, d: nat)
    requires p <= |ts|
    requires var h := ReadHead(ts, p); !(h.Some? && h.value.0.spec == spec && ValidName(h.value.0.name))
    ensures var r := ReadPrim(ts, p);
      !(r.Some? && r.value.0.spec == spec && GoodPrim(accept, r.value.0, index, parent, path, next, d))
  {
  }

  lemma BlockResult(accept: Call -> bool, ts: seq<Token>, p: nat, q: nat, head: Prim, index: int, parent: int,
      path: string, next: nat, d: nat)
    requires p <= |ts| && q <= |ts| && ReadHead(ts, p) == Some((head, q)) && ValidName(head.name) && d <= MAX_DEPTH
    ensures match ReadBody(ts, Past(ts, q, InPrim), InPrim)
      case None => ReadPrim(ts, p).None?
      case Some(b) =>
        var prim := head.(body := b.0);
        ReadPrim(ts, p) == Some((prim, b.1))
        && PrimCount(prim) == BodyCount(b.0, OfPrim(index))
        && PrimCalls(prim, index, parent, path, next)
           == BodyCalls(b.0, OfPrim(index), JoinPath(path, head.name), next)
              + [PrimCall(prim, index, parent, path, next)]
        && (GoodPrim(accept, prim, index, parent, path, next, d) <==>
            GoodBody(accept, b.0, OfPrim(index), JoinPath(path, head.name), next, d)
            && accept(PrimCall(prim, index, parent, path, next)))
  {
    if ReadBody(ts, Past(ts, q, InPrim), InPrim).Some? {
      hide GoodPrim, GoodBody;
      var b := ReadBody(ts, Past(ts, q, InPrim), InPrim).value;
      BodyCountByKind(b.0, OfPrim(0), OfPrim(index));
      GoodPrimStep(accept, head.(body := b.0), index, parent, path, next, d);
    }
  }

  lemma ResumeStart(accept: Call -> bool, ts: seq<Token>, p: nat, s: Snap, o: Owner, path: string, d: nat)
    requires p <= |ts|
    ensures Resumes(accept, ts, p, s, p, s, o, path, d)
  {
  }

  lemma LResumeStart(accept: Call -> bool, ts: seq<Token>, p: nat, next: nat, calls: seq<Call>)
    requires p <= |ts|
    ensures LResumes(accept, ts, p, next, calls, p, next, calls)
  {
  }

  lemma VResumeStart(accept: Call -> bool, ts: seq<Token>, p: nat, s: VSnap, set_: int, path: string, d: nat)
    requires p <= |ts|
    ensures VResumes(accept, ts, p, s, p, s, set_, path, d)
  {
  }

  lemma FinishFields(b: Body, o: Owner, path: string, s: Snap)
    requires s.props == [] && s.prims == []
    ensures Finish(b, o, path, s) == Snap(s.next + BodyCount(b, o), s.calls + BodyCalls(b, o, path, s.next),
                                          s.pending + Reorders(b), Props(b), ChildIndices(b, o, s.next),
                                              Sets(b, o, s.next, s.sets))
  {
  }

  lemma FinishVariantFields(vs: Variants, set_: int, path: string, s: VSnap)
    ensures FinishVariants(vs, set_, path, s)
         == VSnap(s.next + VariantsCount(vs), s.calls + VariantCalls(vs, set_, path, s.next),
                  s.pending + VariantReorders(vs), VariantMap(vs, set_, s.next, s.variants))
  {
  }

  lemma SetHead(ts: seq<Token>, p: nat)
    requires p < |ts| && ts[p] == VariantSetWord
    ensures ReadVariantSet(ts, p) ==
      if p + 3 < |ts| && ts[p + 1].Quoted? && ts[p + 2] == Equals && ts[p + 3] == Open then
        match ReadVariants(ts, Past(ts, p + 4, InVariant))
        case Some(vs) => Some((VariantSet(ts[p + 1].text, vs.0), vs.1))
        case None => None
      else None
  {
  }

  lemma PrimSpec(ts: seq<Token>, p: nat)
    requires p < |ts| && ts[p].Spec?
    ensures ReadPrim(ts, p).Some? ==> ReadPrim(ts, p).value.0.spec == ts[p].spec
  {
  }

  lemma SetTooDeep(accept: Call -> bool, ts: seq<Token>, p: nat, set_: int, path: string, next: nat, d: nat)
    requires p <= |ts| && d > MAX_DEPTH
    ensures p < |ts| ==> VHopeless(accept, ts, Past(ts, p + 1, InVariant), next, set_, path, d)
  {
    if p < |ts| && ReadVariants(ts, Past(ts, p + 1, InVariant)).Some? {
      DepthAtLeast(ReadVariants(ts, Past(ts, p + 1, InVariant)).value.0, d);
    }
  }

  lemma {:induction false} DepthAtLeast(vs: Variants, d: nat)
    ensures VariantsDepth(vs, d) >= d
  {
    if vs.Variant? {
      DepthAtLeast(vs.rest, d);
    }
  }
}
