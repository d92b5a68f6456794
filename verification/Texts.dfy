/** Text in place: where a piece of characters or tokens stands in a longer one. */
module Texts {

  /** `t` stands in `ts` at `p`. */
  ghost predicate StandsAt<X>(ts: seq<X>, p: nat, t: seq<X>) {
    p + |t| <= |ts| && ts[p..p + |t|] == t
  }

  lemma ElementAt<X>(ts: seq<X>, p: nat, t: seq<X>, i: nat)
    requires StandsAt(ts, p, t) && i < |t|
    ensures p + i < |ts| && ts[p + i] == t[i]
  {
  }

  lemma Associate<X>(a: seq<X>, b: seq<X>, c: seq<X>)
    ensures (a + b) + c == a + (b + c)
  {
  }

  lemma Stands<X>(ts: seq<X>, p: nat, t: seq<X>)
    requires p + |t| <= |ts| && forall i :: 0 <= i < |t| ==> ts[p + i] == t[i]
    ensures StandsAt(ts, p, t)
  {
  }

  lemma StandsJoined<X>(ts: seq<X>, p: nat, a: seq<X>, b: seq<X>)
    ensures StandsAt(ts, p, a + b) <==> StandsAt(ts, p, a) && StandsAt(ts, p + |a|, b)
  {
    if StandsAt(ts, p, a + b) {
      assert ts[p..p + |a|] == ts[p..p + |a + b|][..|a|];
      assert ts[p + |a|..p + |a| + |b|] == ts[p..p + |a + b|][|a|..];
    }
    if StandsAt(ts, p, a) && StandsAt(ts, p + |a|, b) {
      assert ts[p..p + |a + b|] == ts[p..p + |a|] + ts[p + |a|..p + |a| + |b|];
    }
  }
}
