/** What each edit does to an array, element by element, and the exact words that it is
    compiled to (src/array-edit.hh, src/next/layer/array-edit.cc). */
module ArrayEditLaws {
  import opened Options
  import opened ArrayEditOps
  import opened ArrayEditSurface
  import opened ArrayEditCode
  import opened ArrayEditEval

  // ----- the effect of an edit --------------------------------------------------------------------

  /** `i` is the element at `k` of `n`, counted from the front or from the end. */
  predicate Names(i: int, k: int, n: nat) {
    0 <= k < n && (i == k || i == k - n)
  }

  /** The operand supplies `v`: a literal itself, an index the element it names. */
  ghost predicate Supplies<T>(src: Source<T>, a: seq<T>, v: T) {
    match src
    case Lit(x) => v == x
    case Ref(i) => exists k :: Names(i, k, |a|) && v == a[k]
  }

  ghost predicate NoSource<T(!new)>(src: Source<T>, a: seq<T>) {
    forall v :: !Supplies(src, a, v)
  }

  /** `at` is the place before the element at `k`, counted from the front or from the end, or the
      place behind the last element. */
  predicate Place(at: int, k: int, n: nat) {
    0 <= k <= n && if at == -0x8000_0000_0000_0000 then k == n else if at < 0 then at == k - n else at == k
  }

  ghost predicate PutAt<T>(a: seq<T>, k: int, v: T, r: seq<T>)
    requires 0 <= k <= |a|
  {
    && |r| == |a| + 1 && r[k] == v
    && (forall j :: 0 <= j < k ==> r[j] == a[j])
    && (forall j :: k <= j < |a| ==> r[j + 1] == a[j])
  }

  ghost predicate TakenAt<T>(a: seq<T>, k: int, r: seq<T>)
    requires 0 <= k < |a|
  {
    && |r| == |a| - 1
    && (forall j :: 0 <= j < k ==> r[j] == a[j])
    && (forall j :: k <= j < |r| ==> r[j] == a[j + 1])
  }

  ghost predicate SetAt<T>(a: seq<T>, k: int, v: T, r: seq<T>)
    requires 0 <= k < |a|
  {
    |r| == |a| && r[k] == v && forall j :: 0 <= j < |a| && j != k ==> r[j] == a[j]
  }

  /** Exactly `m` elements: the old ones as far as they go, and then the fill. */
  ghost predicate SizedTo<T>(a: seq<T>, m: nat, fill: T, r: seq<T>) {
    |r| == m && forall k :: 0 <= k < m ==> r[k] == if k < |a| then a[k] else fill
  }

  /** One value is put in at the place; without a value or without a place nothing happens. */
  ghost predicate InsertionEffect<T(!new)>(src: Source<T>, at: int, a: seq<T>, r: seq<T>) {
    if NoSource(src, a) || (forall k :: !Place(at, k, |a|)) then r == a
    else exists k, v :: Place(at, k, |a|) && Supplies(src, a, v) && PutAt(a, k, v, r)
  }

  ghost predicate WriteEffect<T(!new)>(src: Source<T>, to: int, a: seq<T>, r: seq<T>) {
    if NoSource(src, a) || (forall k :: !Names(to, k, |a|)) then r == a
    else exists k, v :: Names(to, k, |a|) && Supplies(src, a, v) && SetAt(a, k, v, r)
  }

  ghost predicate EraseEffect<T>(i: int, a: seq<T>, r: seq<T>) {
    if forall k :: !Names(i, k, |a|) then r == a else exists k :: Names(i, k, |a|) && TakenAt(a, k, r)
  }

  /** The result of an edit; None is the size-limit error, beyond 2^30 elements. */
  ghost predicate Effect<T(!new)>(e: Edit<T>, a: seq<T>, zero: T, r: Option<seq<T>>) {
    match e
    case Write(src, to) => r.Some? && WriteEffect(src, to, a, r.value)
    case Insert(src, at) => r.Some? && InsertionEffect(src, at, a, r.value)
    case Prepend(src) => r.Some? && InsertionEffect(src, 0, a, r.value)
    case Append(src) =>
      r.Some? && if NoSource(src, a) then r.value == a else exists v :: Supplies(src, a, v) && PutAt(a, |a|, v, r.value)
    case Erase(i) => r.Some? && EraseEffect(i, a, r.value)
    case MinSize(n, fill) =>
      if n > 0x4000_0000 then r == None
      else
        r.Some? && SizedTo(a, if n < |a| then |a| else n, match fill case Some(v) => v case None => zero, r.value)
    case Resize(n, fill) =>
      if n > 0x4000_0000 then r == None
      else if n < 0 then r == Some(a)
      else r.Some? && SizedTo(a, n, match fill case Some(v) => v case None => zero, r.value)
    case MaxSize(n) => r.Some? && SizedTo(a, if 0 <= n < |a| then n else |a|, zero, r.value)
  }

  // ----- every edit has its effect --------------------------------------------------------------

  lemma {:induction false} CopiesAre<T>(n: nat, v: T)
    ensures |Copies(n, v)| == n && forall k :: 0 <= k < n ==> Copies(n, v)[k] == v
  {
    if n > 0 {
      CopiesAre(n - 1, v);
    }
  }

  lemma GrownTo<T>(a: seq<T>, n: nat, fill: T)
    requires |a| <= n
    ensures SizedTo(a, n, fill, Grown(a, n, fill))
  {
    CopiesAre(n - |a|, fill);
  }

  lemma SizeEffect<T(!new)>(e: Edit<T>, a: seq<T>, zero: T)
    requires e.MinSize? || e.Resize? || e.MaxSize?
    ensures Effect(e, a, zero, RunEdit(e, a, zero))
  {
    hide Grown;
    if !e.MaxSize? && e.n >= |a| {
      GrownTo(a, e.n, e.fill.GetOr(zero));
    }
  }

  lemma GetNames<T>(a: seq<T>, i: Int64)
    ensures match Get(a, i)
      case Some(v) => exists k :: Names(i, k, |a|) && v == a[k]
      case None => forall k :: !Names(i, k, |a|)
  {
    if 0 <= i < |a| {
      assert Names(i, i, |a|);
    } else if -|a| <= i < 0 {
      assert Names(i, |a| + i, |a|);
    }
  }

  lemma SourceSupplies<T(!new)>(src: Source<T>, a: seq<T>)
    ensures match SourceValue(src, a) case Some(v) => Supplies(src, a, v) case None => NoSource(src, a)
  {
    if src.Ref? {
      GetNames(a, src.i);
    }
  }

  lemma WriteHasEffect<T(!new)>(src: Source<T>, to: Int64, a: seq<T>, zero: T)
    ensures Effect(Write(src, to), a, zero, RunEdit(Write(src, to), a, zero))
  {
    hide SourceValue, Supplies;
    SourceSupplies(src, a);
    if SourceValue(src, a).Some? && -|a| <= to < |a| {
      var k := if to < 0 then |a| + to else to;
      assert Names(to, k, |a|) && SetAt(a, k, SourceValue(src, a).value, a[k := SourceValue(src, a).value]);
    }
  }

  lemma PutIn<T>(a: seq<T>, k: nat, v: T)
    requires k <= |a|
    ensures PutAt(a, k, v, a[..k] + [v] + a[k..])
  {
  }

  lemma InsertHasEffect<T(!new)>(src: Source<T>, at: Int64, a: seq<T>, zero: T)
    ensures Effect(Insert(src, at), a, zero, RunEdit(Insert(src, at), a, zero))
  {
    hide SourceValue, Supplies, PutAt;
    SourceSupplies(src, a);
    if SourceValue(src, a).Some? && (at == END_INDEX || -|a| <= at <= |a|) {
      var v := SourceValue(src, a).value;
      var k := if at == END_INDEX then |a| else if at < 0 then |a| + at else at;
      assert Place(at, k, |a|);
      PutIn(a, k, v);
      assert a[..|a|] + [v] + a[|a|..] == a + [v];
    }
  }

  lemma PrependHasEffect<T(!new)>(src: Source<T>, a: seq<T>, zero: T)
    ensures Effect(Prepend(src), a, zero, RunEdit(Prepend(src), a, zero))
  {
    hide SourceValue, Supplies, PutAt;
    SourceSupplies(src, a);
    assert Place(0, 0, |a|);
    if SourceValue(src, a).Some? {
      PutIn(a, 0, SourceValue(src, a).value);
      assert a[..0] + [SourceValue(src, a).value] + a[0..] == [SourceValue(src, a).value] + a;
    }
  }

  lemma AppendHasEffect<T(!new)>(src: Source<T>, a: seq<T>, zero: T)
    ensures Effect(Append(src), a, zero, RunEdit(Append(src), a, zero))
  {
    hide SourceValue, Supplies, PutAt;
    SourceSupplies(src, a);
    if SourceValue(src, a).Some? {
      PutIn(a, |a|, SourceValue(src, a).value);
      assert a[..|a|] + [SourceValue(src, a).value] + a[|a|..] == a + [SourceValue(src, a).value];
    }
  }

  lemma EraseHasEffect<T(!new)>(i: Int64, a: seq<T>, zero: T)
    ensures Effect(Erase(i), a, zero, RunEdit(Erase(i), a, zero))
  {
    GetNames(a, i);
    if -|a| <= i < |a| {
      var k := if i < 0 then |a| + i else i;
      assert Names(i, k, |a|) && TakenAt(a, k, a[..k] + a[k + 1..]);
    }
  }

  /** Running an edit has its effect, element by element. */
  lemma EditHasEffect<T(!new)>(e: Edit<T>, a: seq<T>, zero: T)
    ensures Effect(e, a, zero, RunEdit(e, a, zero))
  {
    hide Effect, RunEdit;
    match e
    case Write(src, to) => WriteHasEffect(src, to, a, zero);
    case Insert(src, at) => InsertHasEffect(src, at, a, zero);
    case Erase(i) => EraseHasEffect(i, a, zero);
    case Prepend(src) => PrependHasEffect(src, a, zero);
    case Append(src) => AppendHasEffect(src, a, zero);
    case _ => SizeEffect(e, a, zero);
  }

  /** So has the evaluator on the edit's record. */
  lemma RecordHasEffect<T(!new)>(e: Edit<T>, a: seq<T>, zero: T)
    ensures Effect(e, a, zero, ApplyRec(RecordOf(e), a, zero))
  {
    hide Effect;
    ApplyRecordOf(e, a, zero);
    EditHasEffect(e, a, zero);
  }

  // ----- the effect is the only one -----------------------------------------------------------------

  lemma NamesOnce(i: int, k: int, m: int, n: nat)
    requires Names(i, k, n) && Names(i, m, n)
    ensures k == m
  {
  }

  lemma SuppliesOnce<T>(src: Source<T>, a: seq<T>, v: T, w: T)
    requires Supplies(src, a, v) && Supplies(src, a, w)
    ensures v == w
  {
  }

  lemma PutOnce<T>(a: seq<T>, k: int, v: T, r: seq<T>, s: seq<T>)
    requires 0 <= k <= |a| && PutAt(a, k, v, r) && PutAt(a, k, v, s)
    ensures r == s
  {
    forall j | 0 <= j < |r| ensures r[j] == s[j] {
      if j > k {
        assert r[j - 1 + 1] == a[j - 1] == s[j - 1 + 1];
      }
    }
  }

  lemma SizedOnce<T>(a: seq<T>, m: nat, fill: T, r: seq<T>, s: seq<T>)
    requires SizedTo(a, m, fill, r) && SizedTo(a, m, fill, s)
    ensures r == s
  {
  }

  lemma AppendOnce<T(!new)>(src: Source<T>, a: seq<T>, r: seq<T>, s: seq<T>)
    requires exists v :: Supplies(src, a, v) && PutAt(a, |a|, v, r)
    requires exists v :: Supplies(src, a, v) && PutAt(a, |a|, v, s)
    ensures r == s
  {
    hide Supplies, PutAt;
    var v :| Supplies(src, a, v) && PutAt(a, |a|, v, r);
    var w :| Supplies(src, a, w) && PutAt(a, |a|, w, s);
    SuppliesOnce(src, a, v, w);
    PutOnce(a, |a|, v, r, s);
  }

  /** An edit has one effect: it says what the result is. */
  lemma EffectIsUnique<T(!new)>(e: Edit<T>, a: seq<T>, zero: T, r: Option<seq<T>>, s: Option<seq<T>>)
    requires Effect(e, a, zero, r) && Effect(e, a, zero, s)
    ensures r == s
  {
    hide Supplies, PutAt, WriteEffect, InsertionEffect, EraseEffect, SizedTo;
    match e
    case Write(src, to) => WriteOnce(src, to, a, r.value, s.value);
    case Insert(src, at) => InsertOnce(src, at, a, r.value, s.value);
    case Prepend(src) => InsertOnce(src, 0, a, r.value, s.value);
    case Append(src) =>
      if !NoSource(src, a) {
        AppendOnce(src, a, r.value, s.value);
      }
    case Erase(i) => EraseOnce(i, a, r.value, s.value);
    case MinSize(n, fill) =>
      if r.Some? {
        SizedOnce(a, if n < |a| then |a| else n, match fill case Some(v) => v case None => zero, r.value, s.value);
      }
    case Resize(n, fill) =>
      if r.Some? && n >= 0 {
        SizedOnce(a, n, match fill case Some(v) => v case None => zero, r.value, s.value);
      }
    case MaxSize(n) => SizedOnce(a, if 0 <= n < |a| then n else |a|, zero, r.value, s.value);
  }

  lemma WriteOnce<T(!new)>(src: Source<T>, to: int, a: seq<T>, r: seq<T>, s: seq<T>)
    requires WriteEffect(src, to, a, r) && WriteEffect(src, to, a, s)
    ensures r == s
  {
    hide Supplies;
    if !(NoSource(src, a) || forall k :: !Names(to, k, |a|)) {
      var k, v :| Names(to, k, |a|) && Supplies(src, a, v) && SetAt(a, k, v, r);
      var m, w :| Names(to, m, |a|) && Supplies(src, a, w) && SetAt(a, m, w, s);
      NamesOnce(to, k, m, |a|);
      SuppliesOnce(src, a, v, w);
    }
  }

  lemma InsertOnce<T(!new)>(src: Source<T>, at: int, a: seq<T>, r: seq<T>, s: seq<T>)
    requires InsertionEffect(src, at, a, r) && InsertionEffect(src, at, a, s)
    ensures r == s
  {
    hide Supplies, PutAt;
    if !(NoSource(src, a) || forall k :: !Place(at, k, |a|)) {
      var k, v :| Place(at, k, |a|) && Supplies(src, a, v) && PutAt(a, k, v, r);
      var m, w :| Place(at, m, |a|) && Supplies(src, a, w) && PutAt(a, m, w, s);
      SuppliesOnce(src, a, v, w);
      assert k == m;
      PutOnce(a, k, v, r, s);
    }
  }

  lemma EraseOnce<T>(i: int, a: seq<T>, r: seq<T>, s: seq<T>)
    requires EraseEffect(i, a, r) && EraseEffect(i, a, s)
    ensures r == s
  {
    if !(forall k :: !Names(i, k, |a|)) {
      var k :| Names(i, k, |a|) && TakenAt(a, k, r);
      var m :| Names(i, m, |a|) && TakenAt(a, m, s);
      NamesOnce(i, k, m, |a|);
    }
  }

  // ----- the words of the stream ----------------------------------------------------------------------

  /** The words that an edit is compiled to, number by number: the op in the top byte with the
      count 1 below it, and then the operands. */
  lemma WordsAre<T>(e: Edit<T>, base: nat)
    ensures Words(InstrOf(e, base)) ==
      match e
      case Write(Lit(_), to) => [0x0000_0000_0000_0001, base, to]
      case Write(Ref(i), to) => [0x0100_0000_0000_0001, i, to]
      case Insert(Lit(_), at) => [0x0200_0000_0000_0001, base, at]
      case Insert(Ref(i), at) => [0x0300_0000_0000_0001, i, at]
      case Prepend(Lit(_)) => [0x0200_0000_0000_0001, base, 0]
      case Prepend(Ref(i)) => [0x0300_0000_0000_0001, i, 0]
      case Append(Lit(_)) => [0x0200_0000_0000_0001, base, -0x8000_0000_0000_0000]
      case Append(Ref(i)) => [0x0300_0000_0000_0001, i, -0x8000_0000_0000_0000]
      case Erase(i) => [0x0400_0000_0000_0001, i]
      case MinSize(n, None) => [0x0500_0000_0000_0001, n]
      case MinSize(n, Some(_)) => [0x0600_0000_0000_0001, n, base]
      case Resize(n, None) => [0x0700_0000_0000_0001, n]
      case Resize(n, Some(_)) => [0x0800_0000_0000_0001, n, base]
      case MaxSize(n) => [0x0900_0000_0000_0001, n]
  {
  }
}
