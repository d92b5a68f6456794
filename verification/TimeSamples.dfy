/** Time-sample blocks `{ time: value, ... }` (src/ascii-parser-timesamples.cc and
    src/ascii-parser-timesamples-array.cc): three copies of one separator loop, and the typed
    fast path with its cursor restore and generic fallback.  Reading a time or a value is a
    function of the text and the position. */
module TimeSamples {
  import opened Options
  import opened CharReader

  type ReadFn<T> = (string, nat) -> Option<(T, nat)>

  /** A token reader takes at least one character. */
  ghost predicate TakesInput<T(!new)>(read: ReadFn<T>) {
    forall s: string, p: nat :: read(s, p).Some? ==> p < read(s, p).value.1 <= |s|
  }

  /** A number ends neither in a colon nor in a NUL. */
  ghost predicate IsNumberReader(read: ReadFn<real>) {
    forall s: string, p: nat :: read(s, p).Some? ==>
      var q := read(s, p).value.1; p < q <= |s| && s[q - 1] != ':' && s[q - 1] != NUL
  }

  /** A sample: a time, and a value unless the sample is blocked. */
  datatype Sample<V> = Sample(time: real, value: Option<V>)

  /** The separator behind a sample: malformed, the end of the block, or the way to the next
      sample. */
  datatype Separator = Bad | Ends(pos: nat) | Goes(pos: nat)

  datatype Outcome = Broken | Closing | Going

  // ----- one sample -----------------------------------------------------------------------------

  /** `time: value` or `time: None` */
  ghost function ReadPair<V(!new)>(rt: ReadFn<real>, rv: ReadFn<V>, s: string, p: nat): (r: Option<(Sample<V>, nat)>)
    requires IsNumberReader(rt) && TakesInput(rv) && p <= |s|
    ensures r.Some? ==> p + 1 < r.value.1 <= |s|
  {
    match rt(s, p)
    case None => None
    case Some(t) =>
      match SkipSpace(s, t.1)
      case None => None
      case Some(a) =>
        match Expect(s, a, ':')
        case None => None
        case Some(b) =>
          match SkipSpace(s, b)
          case None => None
          case Some(c) =>
            if NoneAt(s, c) then Some((Sample(t.0, None), c + 4))
            else match rv(s, c) case Some(v) => Some((Sample(t.0, Some(v.0)), v.1)) case None => None
  }

  /** A comma, or anything else: then a `}` behind line breaks still ends the block, and
      otherwise the next sample simply follows. */
  function ReadSeparator(s: string, p: nat): (r: Separator)
    requires p <= |s|
    ensures r.Bad? || p - 1 <= r.pos <= |s|
  {
    match SkipSpace(s, p)
    case None => Bad
    case Some(e) =>
      if s[e] == '}' then Ends(e + 1)
      else if s[e] == ',' then Goes(GapEnd(s, e + 1))
      else
        var f := GapEnd(s, e);
        if f == |s| then Bad else if s[f] == '}' then Ends(f + 1) else Goes(f)
  }

  // ----- a whole block --------------------------------------------------------------------------

  /** The samples up to the closing brace, or up to the end of the input. */
  ghost function ReadSamples<V(!new)>(rt: ReadFn<real>, rv: ReadFn<V>, s: string, p: nat)
    : (r: Option<(seq<Sample<V>>, nat)>)
    requires IsNumberReader(rt) && TakesInput(rv) && p <= |s|
    ensures r.Some? ==> r.value.1 <= |s|
    decreases |s| - p
  {
    if Ended(s, p) then Some(([], p))
    else if s[p] == '}' then Some(([], p + 1))
    else
      match ReadPair(rt, rv, s, p)
      case None => None
      case Some(x) =>
        match ReadSeparator(s, x.1)
        case Bad => None
        case Ends(q) => Some(([x.0], q))
        case Goes(q) =>
          match ReadSamples(rt, rv, s, q)
          case None => None
          case Some(rest) => Some(([x.0] + rest.0, rest.1))
  }

  ghost function ReadBlock<V(!new)>(rt: ReadFn<real>, rv: ReadFn<V>, s: string, p: nat)
    : (r: Option<(seq<Sample<V>>, nat)>)
    requires IsNumberReader(rt) && TakesInput(rv) && p <= |s|
    ensures r.Some? ==> r.value.1 <= |s|
  {
    match Expect(s, p, '{')
    case None => None
    case Some(q) => ReadSamples(rt, rv, s, GapEnd(s, q))
  }

  /** The samples that stand well-formed before the first mistake, whose separators need not. */
  ghost function Prefix<V(!new)>(rt: ReadFn<real>, rv: ReadFn<V>, s: string, p: nat): seq<Sample<V>>
    requires IsNumberReader(rt) && TakesInput(rv) && p <= |s|
    decreases |s| - p
  {
    if Ended(s, p) || s[p] == '}' then []
    else
      match ReadPair(rt, rv, s, p)
      case None => []
      case Some(x) =>
        match ReadSeparator(s, x.1) case Goes(q) => [x.0] + Prefix(rt, rv, s, q) case _ => [x.0]
  }

  ghost function BlockPrefix<V(!new)>(rt: ReadFn<real>, rv: ReadFn<V>, s: string, p: nat): seq<Sample<V>>
    requires IsNumberReader(rt) && TakesInput(rv) && p <= |s|
  {
    match Expect(s, p, '{') case None => [] case Some(q) => Prefix(rt, rv, s, GapEnd(s, q))
  }

  /** A pair reads behind the opening brace. */
  ghost predicate PairBehindBrace<V(!new)>(rt: ReadFn<real>, rv: ReadFn<V>, s: string, p: nat)
    requires IsNumberReader(rt) && TakesInput(rv) && p <= |s|
  {
    match Expect(s, p, '{')
    case None => false
    case Some(q) =>
      var x := GapEnd(s, q);
      !Ended(s, x) && s[x] != '}' && ReadPair(rt, rv, s, x).Some?
  }

  /** Samples stand before the first mistake if and only if a pair reads behind the brace. */
  lemma SomethingLeft<V(!new)>(rt: ReadFn<real>, rv: ReadFn<V>, s: string, p: nat)
    requires IsNumberReader(rt) && TakesInput(rv) && p <= |s|
    ensures BlockPrefix(rt, rv, s, p) != [] <==> PairBehindBrace(rt, rv, s, p)
  {
    hide IsNumberReader, TakesInput, ReadPair, ReadSeparator;
  }

  // ----- typed values as generic values ------------------------------------------------------------

  /** The typed reader with its results boxed. */
  function Boxed<T, V>(read: ReadFn<T>, box: T -> V): ReadFn<V> {
    (s, p) => match read(s, p) case Some(v) => Some((box(v.0), v.1)) case None => None
  }

  lemma BoxedTakesInput<T(!new), V(!new)>(read: ReadFn<T>, box: T -> V)
    requires TakesInput(read)
    ensures TakesInput(Boxed(read, box))
  {
  }

  // ----- the loops -----------------------------------------------------------------------------------

  /** A loop that started at `p0` and has collected `done` up to `p` is on its way to the same
      result. */
  ghost predicate Resumes<V(!new)>(rt: ReadFn<real>, rv: ReadFn<V>, s: string, p0: nat, p: nat, done: seq<Sample<V>>)
    requires IsNumberReader(rt) && TakesInput(rv) && p0 <= |s| && p <= |s|
  {
    && Prefix(rt, rv, s, p0) == done + Prefix(rt, rv, s, p)
    && match (ReadSamples(rt, rv, s, p0), ReadSamples(rt, rv, s, p))
       case (Some(x), Some(y)) => x.1 == y.1 && x.0 == done + y.0
       case (None, None) => true
       case _ => false
  }

  lemma ResumeStart<V(!new)>(rt: ReadFn<real>, rv: ReadFn<V>, s: string, p: nat)
    requires IsNumberReader(rt) && TakesInput(rv) && p <= |s|
    ensures Resumes(rt, rv, s, p, p, [])
  {
  }

  lemma ResumePair<V(!new)>(rt: ReadFn<real>, rv: ReadFn<V>, s: string, p0: nat, p: nat, done: seq<Sample<V>>)
    requires IsNumberReader(rt) && TakesInput(rv) && p0 <= |s| && p <= |s|
    requires !Ended(s, p) && s[p] != '}' && Resumes(rt, rv, s, p0, p, done)
    ensures match ReadPair(rt, rv, s, p)
      case None => ReadSamples(rt, rv, s, p0).None? && Prefix(rt, rv, s, p0) == done
      case Some(x) =>
        match ReadSeparator(s, x.1)
        case Bad => ReadSamples(rt, rv, s, p0).None? && Prefix(rt, rv, s, p0) == done + [x.0]
        case Ends(q) => ReadSamples(rt, rv, s, p0) == Some((done + [x.0], q))
        case Goes(q) => Resumes(rt, rv, s, p0, q, done + [x.0])
  {
    hide ReadPair, ReadSeparator;
    assert done + [] == done;
    if ReadPair(rt, rv, s, p).Some? {
      var x := ReadPair(rt, rv, s, p).value;
      if ReadSeparator(s, x.1).Goes? {
        var q := ReadSeparator(s, x.1).pos;
        assert done + ([x.0] + Prefix(rt, rv, s, q)) == (done + [x.0]) + Prefix(rt, rv, s, q);
        if ReadSamples(rt, rv, s, q).Some? {
          var rest := ReadSamples(rt, rv, s, q).value.0;
          assert done + ([x.0] + rest) == (done + [x.0]) + rest;
        }
      }
    }
  }

  lemma ResumeEnd<V(!new)>(rt: ReadFn<real>, rv: ReadFn<V>, s: string, p0: nat, p: nat, done: seq<Sample<V>>)
    requires IsNumberReader(rt) && TakesInput(rv) && p0 <= |s| && p <= |s|
    requires (Ended(s, p) || s[p] == '}') && Resumes(rt, rv, s, p0, p, done)
    ensures ReadSamples(rt, rv, s, p0) == Some((done, if Ended(s, p) then p else p + 1))
  {
    assert done + [] == done;
  }

  /** The steps of ReadPair, without their proofs of progress. */
  lemma PairUnfolds<V(!new)>(rt: ReadFn<real>, rv: ReadFn<V>, s: string, p: nat)
    requires IsNumberReader(rt) && TakesInput(rv) && p <= |s|
    ensures match TimeEnd(rt, s, p)
      case None => ReadPair(rt, rv, s, p) == None
      case Some(c) =>
        ReadPair(rt, rv, s, p) ==
        if NoneAt(s, c.1) then Some((Sample(c.0, None), c.1 + 4))
        else match rv(s, c.1) case Some(v) => Some((Sample(c.0, Some(v.0)), v.1)) case None => None
  {
  }

  /** `time:` and the spaces behind it. */
  ghost function TimeEnd(rt: ReadFn<real>, s: string, p: nat): (r: Option<(real, nat)>)
    requires IsNumberReader(rt) && p <= |s|
    ensures r.Some? ==> r.value.1 < |s|
  {
    match rt(s, p)
    case None => None
    case Some(t) =>
      match SkipSpace(s, t.1)
      case None => None
      case Some(a) =>
        match Expect(s, a, ':')
        case None => None
        case Some(b) => match SkipSpace(s, b) case Some(c) => Some((t.0, c)) case None => None
  }

  class SampleParser<T(!new), V(!new)> {
    const cursor: Cursor
    const readTime: ReadFn<real>
    const readTyped: ReadFn<T>
    const readGeneric: ReadFn<V>
    const box: T -> V          // a typed value as a generic one
    var out: seq<Sample<V>>    // the caller's time samples
    var authored: bool

    ghost predicate Valid()
      reads cursor
    {
      cursor.Valid() && IsNumberReader(readTime) && TakesInput(readGeneric) && TakesInput(Boxed(readTyped, box))
    }

    constructor (cursor: Cursor, readTime: ReadFn<real>, readTyped: ReadFn<T>, readGeneric: ReadFn<V>, box: T -> V)
      requires cursor.Valid() && IsNumberReader(readTime) && TakesInput(readTyped) && TakesInput(readGeneric)
      ensures Valid() && this.cursor == cursor && this.readTime == readTime && this.readTyped == readTyped
      ensures this.readGeneric == readGeneric && this.box == box && out == [] && !authored
    {
      this.cursor, this.readTime := cursor, readTime;
      this.readTyped, this.readGeneric, this.box := readTyped, readGeneric, box;
      out, authored := [], false;
      BoxedTakesInput(readTyped, box);
    }

    method ParseTime() returns (ok: bool, time: real)
      requires Valid()
      modifies cursor
      ensures Valid()
      ensures ok == TimeEnd(readTime, cursor.text, old(cursor.pos)).Some?
      ensures ok ==> (time, cursor.pos) == TimeEnd(readTime, cursor.text, old(cursor.pos)).value
    {
      var r := readTime(cursor.text, cursor.pos);
      if r.None? {
        return false, 0.0;
      }
      time, cursor.pos := r.value.0, r.value.1;
      ok := cursor.SkipWhitespace();
      if !ok { return; }
      ok := cursor.ExpectChar(':');
      if !ok { return; }
      ok := cursor.SkipWhitespace();
    }

    /** ParseTimeSampleValue */
    method ParseValue() returns (ok: bool, value: Option<V>)
      requires Valid()
      modifies cursor
      ensures Valid()
      ensures ok == (NoneAt(cursor.text, old(cursor.pos)) || readGeneric(cursor.text, old(cursor.pos)).Some?)
      ensures NoneAt(cursor.text, old(cursor.pos)) ==> value == None && cursor.pos == old(cursor.pos) + 4
      ensures ok && !NoneAt(cursor.text, old(cursor.pos)) ==>
        value.Some? && (value.value, cursor.pos) == readGeneric(cursor.text, old(cursor.pos)).value
    {
      value := None;
      ok := cursor.MaybeNone();
      if !ok {
        var r := readGeneric(cursor.text, cursor.pos);
        if r.Some? {
          ok, value, cursor.pos := true, Some(r.value.0), r.value.1;
        }
      }
    }

    /** The separator behind a sample, the same text in all three loops. */
    method ParseSeparator() returns (sep: Outcome)
      requires Valid()
      modifies cursor
      ensures Valid()
      ensures match ReadSeparator(cursor.text, old(cursor.pos))
        case Bad => sep == Broken
        case Ends(q) => sep == Closing && cursor.pos == q
        case Goes(q) => sep == Going && cursor.pos == q
    {
      var spaced := cursor.SkipWhitespace();
      if !spaced { return Broken; }
      var c := cursor.text[cursor.pos];
      cursor.pos := cursor.pos + 1;
      if c == '}' {
        return Closing;
      }
      if c != ',' {
        cursor.pos := cursor.pos - 1;
        var loc := cursor.pos;
        cursor.SkipWhitespaceAndNewline();
        if cursor.pos == |cursor.text| { return Broken; }
        var nc := cursor.text[cursor.pos];
        cursor.pos := cursor.pos + 1;
        if nc == '}' {
          return Closing;
        }
        cursor.pos := loc;
      }
      cursor.SkipWhitespaceAndNewline();
      sep := Going;
    }

    /** ParseTypedTimeSamples adds each sample to the caller's list as soon as it is read, so a
        failure leaves the samples before the mistake there. */
    method ParseTyped() returns (ok: bool)
      requires Valid() && out == []
      modifies this`out, this`authored, cursor
      ensures Valid()
      ensures ok <==> ReadBlock(readTime, Boxed(readTyped, box), cursor.text, old(cursor.pos)).Some?
      ensures ok ==> (out, cursor.pos) == ReadBlock(readTime, Boxed(readTyped, box), cursor.text, old(cursor.pos)).value
      ensures !ok ==> out == BlockPrefix(readTime, Boxed(readTyped, box), cursor.text, old(cursor.pos))
      ensures authored == (old(authored) || Expect(cursor.text, old(cursor.pos), '{').Some?)
    {
      hide ReadBlock, BlockPrefix, ReadSamples, ReadPair, ReadSeparator, Prefix, Resumes, IsNumberReader, TakesInput,
          TimeEnd, Expect, SkipSpace,
        GapEnd, NoneAt, Boxed;
      BlockUnfolds(readTime, Boxed(readTyped, box), cursor.text, cursor.pos);
      ok := cursor.ExpectChar('{');
      if !ok { return; }
      authored := true;
      cursor.SkipWhitespaceAndNewline();
      ghost var rv, text, p0 := Boxed(readTyped, box), cursor.text, cursor.pos;
      ResumeStart(readTime, rv, text, cursor.pos);
      while cursor.pos < |cursor.text| && cursor.text[cursor.pos] != NUL
        invariant Valid() && text == cursor.text && p0 <= |text| && authored
        invariant Resumes(readTime, rv, text, p0, cursor.pos, out)
        decreases |text| - cursor.pos
      {
        ghost var p := cursor.pos;
        if cursor.text[cursor.pos] == '}' {
          ResumeEnd(readTime, rv, text, p0, p, out);
          cursor.pos := cursor.pos + 1;
          return true;
        }
        ResumePair(readTime, rv, text, p0, p, out);
        PairUnfolds(readTime, rv, text, p);
        var time;
        ok, time := ParseTime();
        if !ok { return; }
        var blocked := cursor.MaybeNone();
        if blocked {
          out := out + [Sample(time, None)];
        } else {
          var r := readTyped(cursor.text, cursor.pos);
          BoxedAt(readTyped, box, text, cursor.pos);
          if r.None? { return false; }
          BoxedEnd(rv, text, cursor.pos);
          cursor.pos := r.value.1;
          out := out + [Sample(time, Some(box(r.value.0)))];
        }
        var sep := ParseSeparator();
        if sep != Going {
          return sep == Closing;
        }
      }
      ResumeEnd(readTime, rv, text, p0, cursor.pos, out);
      ok := true;
    }

    /** The generic loop of ParseTimeSamples, and ParseTimeSamplesOfArray with its reader of
        array values: samples go to a local list, which replaces the caller's on success only. */
    method ParseGeneric() returns (ok: bool)
      requires Valid()
      modifies this`out, this`authored, cursor
      ensures Valid()
      ensures ok <==> ReadBlock(readTime, readGeneric, cursor.text, old(cursor.pos)).Some?
      ensures ok ==> (out, cursor.pos) == ReadBlock(readTime, readGeneric, cursor.text, old(cursor.pos)).value
      ensures ok ==> authored
      ensures !ok ==> out == old(out) && authored == old(authored)
    {
      hide ReadBlock, BlockPrefix, ReadSamples, ReadPair, ReadSeparator, Prefix, Resumes, IsNumberReader, TakesInput,
          TimeEnd, Expect, SkipSpace,
        GapEnd, NoneAt, Boxed;
      BlockUnfolds(readTime, readGeneric, cursor.text, cursor.pos);
      ok := cursor.ExpectChar('{');
      if !ok { return; }
      cursor.SkipWhitespaceAndNewline();
      ghost var text, p0 := cursor.text, cursor.pos;
      var ts: seq<Sample<V>> := [];
      ghost var closed := false;
      ResumeStart(readTime, readGeneric, text, cursor.pos);
      while cursor.pos < |cursor.text| && cursor.text[cursor.pos] != NUL
        invariant Valid() && text == cursor.text && p0 <= |text| && out == old(out) && authored == old(authored)
        invariant !closed && Resumes(readTime, readGeneric, text, p0, cursor.pos, ts)
        decreases |text| - cursor.pos
      {
        ghost var p := cursor.pos;
        if cursor.text[cursor.pos] == '}' {
          ResumeEnd(readTime, readGeneric, text, p0, p, ts);
          cursor.pos := cursor.pos + 1;
          closed := true;
          break;
        }
        ResumePair(readTime, readGeneric, text, p0, p, ts);
        PairUnfolds(readTime, readGeneric, text, p);
        var time, value;
        ok, time := ParseTime();
        if !ok { return; }
        ok, value := ParseValue();
        if !ok { return; }
        var sep := ParseSeparator();
        if sep == Broken { return false; }
        ts := ts + [Sample(time, value)];
        if sep == Closing {
          closed := true;
          break;
        }
      }
      if !closed {
        ResumeEnd(readTime, readGeneric, text, p0, cursor.pos, ts);
      }
      out, authored := ts, true;
      ok := true;
    }

    /** ParseTimeSamples: for a type with binary storage the typed loop runs first; when it
        fails, the cursor goes back and the generic loop runs.  When both fail, samples are left
        behind exactly where a pair reads behind the opening brace. */
    method ParseTimeSamples(binary: bool) returns (ok: bool)
      requires Valid()
      modifies this`out, this`authored, cursor
      ensures Valid()
      ensures var fast := ReadBlock(readTime, Boxed(readTyped, box), cursor.text, old(cursor.pos));
        var slow := ReadBlock(readTime, readGeneric, cursor.text, old(cursor.pos));
        && (ok <==> (binary && fast.Some?) || slow.Some?)
        && (ok ==> (out, cursor.pos) == (if binary && fast.Some? then fast else slow).value)
        && (!ok ==>
              out == if binary then BlockPrefix(readTime, Boxed(readTyped, box), cursor.text, old(cursor.pos)) else [])
      ensures !ok ==> (out != [] <==>
                binary && PairBehindBrace(readTime, Boxed(readTyped, box), cursor.text, old(cursor.pos)))
    {
      hide ReadBlock, BlockPrefix, Boxed, PairBehindBrace;
      SomethingLeft(readTime, Boxed(readTyped, box), cursor.text, cursor.pos);
      out, authored := [], false;
      var saved := cursor.pos;
      if binary {
        ok := ParseTyped();
        if ok { return; }
        cursor.pos := saved;
      }
      ok := ParseGeneric();
    }
  }

  lemma BoxedAt<T, V>(read: ReadFn<T>, box: T -> V, s: string, p: nat)
    ensures Boxed(read, box)(s, p) == match read(s, p) case Some(v) => Some((box(v.0), v.1)) case None => None
  {
  }

  lemma BlockUnfolds<V(!new)>(rt: ReadFn<real>, rv: ReadFn<V>, s: string, p: nat)
    requires IsNumberReader(rt) && TakesInput(rv) && p <= |s|
    ensures match Expect(s, p, '{')
      case None => ReadBlock(rt, rv, s, p) == None && BlockPrefix(rt, rv, s, p) == []
      case Some(q) => ReadBlock(rt, rv, s, p) == ReadSamples(rt, rv, s, GapEnd(s, q))
                      && BlockPrefix(rt, rv, s, p) == Prefix(rt, rv, s, GapEnd(s, q))
  {
  }

  lemma BoxedEnd<V(!new)>(rv: ReadFn<V>, s: string, p: nat)
    requires TakesInput(rv) && rv(s, p).Some?
    ensures p < rv(s, p).value.1 <= |s|
  {
  }
}
