/** The file-descriptor budget of open_asset (src/asset-resolution.cc): every call of every
    thread takes one unit of a shared atomic counter with a weak compare-and-swap loop and
    gives it back when its guard is destroyed.  The protocol is a state machine over the
    atomic operations; a run is any interleaving of any number of threads. */
module DescriptorBudget {

  type Tid = nat

  const WORD: nat := 0x1_0000_0000

  /** Where a thread is inside open_asset.  `Seen(cur)` holds the local copy of the counter
      that the next test and the next compare-and-swap use. */
  datatype Phase = Idle | Seen(cur: nat) | Holding | Refused(cur: nat)

  /** Threads missing from `phases` have never called. */
  datatype State = State(counter: nat, phases: map<Tid, Phase>)

  datatype Step =
    | Load(t: Tid)     // counter->load()
    | CasOk(t: Tid)    // compare_exchange_weak returns true
    | CasFail(t: Tid)  // it returns false, spuriously or not, and reloads `cur`
    | Refuse(t: Tid)   // cur >= limit
    | Leave(t: Tid)    // a refused call returns
    | Release(t: Tid)  // the guard's destructor: fetch_sub(1)

  function PhaseOf(s: State, t: Tid): Phase {
    if t in s.phases then s.phases[t] else Idle
  }

  function Holders(s: State): set<Tid> {
    set t | t in s.phases && s.phases[t].Holding?
  }

  const START := State(0, map[])

  ghost predicate Enabled(limit: nat, s: State, step: Step) {
    var p := PhaseOf(s, step.t);
    match step
    case Load(_) => p.Idle?
    case CasOk(_) => p.Seen? && p.cur < limit && s.counter == p.cur
    case CasFail(_) => p.Seen? && p.cur < limit
    case Refuse(_) => p.Seen? && p.cur >= limit
    case Leave(_) => p.Refused?
    case Release(_) => p.Holding?
  }

  /** The step's effect, with the counter's 32-bit wrap-around written out. */
  function Apply(s: State, step: Step): State {
    match step
    case Load(t) => s.(phases := s.phases[t := Seen(s.counter)])
    case CasOk(t) => State((s.counter + 1) % WORD, s.phases[t := Holding])
    case CasFail(t) => s.(phases := s.phases[t := Seen(s.counter)])
    case Refuse(t) =>
      var p := PhaseOf(s, t);
      s.(phases := s.phases[t := Refused(if p.Seen? then p.cur else 0)])
    case Leave(t) => s.(phases := s.phases[t := Idle])
    case Release(t) => State((s.counter + WORD - 1) % WORD, s.phases[t := Idle])
  }

  /** `run` lists the states that the interleaving `steps` passes through. */
  ghost predicate IsRun(limit: nat, run: seq<State>, steps: seq<Step>) {
    && |run| == |steps| + 1
    && run[0] == START
    && forall i :: 0 <= i < |steps| ==> Enabled(limit, run[i], steps[i]) && run[i + 1] == Apply(run[i], steps[i])
  }

  // ----- the counter is the number of holders, within the limit ------------------------

  ghost predicate Inv(limit: nat, s: State) {
    s.counter == |Holders(s)| <= limit
  }

  lemma HoldersAfter(limit: nat, s: State, step: Step)
    requires Enabled(limit, s, step)
    ensures Holders(Apply(s, step)) ==
            match step
            case CasOk(t) => Holders(s) + {t}
            case Release(t) => Holders(s) - {t}
            case _ => Holders(s)
  {
  }

  lemma InvStep(limit: nat, s: State, step: Step)
    requires limit < 0x1_0000_0000 && Inv(limit, s) && Enabled(limit, s, step)
    ensures Inv(limit, Apply(s, step))
    ensures step.CasOk? ==> Apply(s, step).counter == s.counter + 1
    ensures step.Release? ==> s.counter > 0 && Apply(s, step).counter == s.counter - 1
  {
    HoldersAfter(limit, s, step);
    if step.CasOk? {
      assert step.t !in Holders(s);
    } else if step.Release? {
      assert step.t in Holders(s);
    }
  }

  /** In every interleaving, at every instant, the counter is the number of guards held and
      stays within the limit. */
  lemma {:induction false} CounterIsHolders(limit: nat, run: seq<State>, steps: seq<Step>, n: nat)
    requires limit < 0x1_0000_0000 && IsRun(limit, run, steps) && n < |run|
    ensures run[n].counter == |Holders(run[n])| <= limit
  {
    if n == 0 {
      assert Holders(START) == {};
    } else {
      CounterIsHolders(limit, run, steps, n - 1);
      InvStep(limit, run[n - 1], steps[n - 1]);
    }
  }

  /** No increment wraps past 2^32 and no decrement wraps below 0. */
  lemma CounterNeverWraps(limit: nat, run: seq<State>, steps: seq<Step>, i: nat)
    requires limit < 0x1_0000_0000 && IsRun(limit, run, steps) && i < |steps|
    ensures steps[i].CasOk? ==> run[i + 1].counter == run[i].counter + 1 < 0x1_0000_0000
    ensures steps[i].Release? ==> run[i + 1].counter == run[i].counter - 1
    ensures !steps[i].CasOk? && !steps[i].Release? ==> run[i + 1].counter == run[i].counter
  {
    CounterIsHolders(limit, run, steps, i);
    CounterIsHolders(limit, run, steps, i + 1);
    InvStep(limit, run[i], steps[i]);
  }

  /** When no call is in progress, the counter is back where it started. */
  lemma QuietCounterIsZero(limit: nat, run: seq<State>, steps: seq<Step>, n: nat)
    requires limit < 0x1_0000_0000 && IsRun(limit, run, steps) && n < |run|
    requires forall t :: t in run[n].phases ==> run[n].phases[t].Idle?
    ensures run[n].counter == START.counter
  {
    CounterIsHolders(limit, run, steps, n);
    assert Holders(run[n]) == {};
  }

  // ----- a refusal is justified --------------------------------------------------------

  /** Thread `t` is inside one and the same call at every instant from `k` to `n`. */
  ghost predicate Inside(run: seq<State>, t: Tid, k: nat, n: nat)
    requires n < |run|
  {
    forall j :: k <= j <= n ==> !PhaseOf(run[j], t).Idle?
  }

  /** The local copy was the counter's value at some instant of the same call. */
  lemma {:induction false} CopyWasTrue(limit: nat, run: seq<State>, steps: seq<Step>, t: Tid, n: nat) returns (k: nat)
    requires IsRun(limit, run, steps) && n < |run|
    requires PhaseOf(run[n], t).Seen? || PhaseOf(run[n], t).Refused?
    ensures k <= n && run[k].counter == PhaseOf(run[n], t).cur && Inside(run, t, k, n)
  {
    var step := steps[n - 1];
    if step.t == t && (step.Load? || step.CasFail?) {
      k := n;
    } else {
      k := CopyWasTrue(limit, run, steps, t, n - 1);
    }
  }

  /** A call is refused only if the budget was used up at some instant during that call. */
  lemma RefusalIsJustified(limit: nat, run: seq<State>, steps: seq<Step>, t: Tid, n: nat)
    requires IsRun(limit, run, steps) && n < |run| && PhaseOf(run[n], t).Refused?
    ensures exists k :: 0 <= k <= n && run[k].counter >= limit && Inside(run, t, k, n)
  {
    RefusedCopyAtLimit(limit, run, steps, t, n);
    var k := CopyWasTrue(limit, run, steps, t, n);
  }

  lemma {:induction false} RefusedCopyAtLimit(limit: nat, run: seq<State>, steps: seq<Step>, t: Tid, n: nat)
    requires IsRun(limit, run, steps) && n < |run| && PhaseOf(run[n], t).Refused?
    ensures PhaseOf(run[n], t).cur >= limit
  {
    if steps[n - 1] != Refuse(t) {
      RefusedCopyAtLimit(limit, run, steps, t, n - 1);
    }
  }

  /** A call whose copy is at the limit does not try again: until it is over it stays as it is or is
      refused with that copy. */
  lemma {:induction false} LimitEndsCall(limit: nat, run: seq<State>, steps: seq<Step>, t: Tid, m: nat, n: nat)
    requires IsRun(limit, run, steps) && m <= n < |run| && Inside(run, t, m, n)
    requires PhaseOf(run[m], t).Seen? && PhaseOf(run[m], t).cur >= limit
    ensures PhaseOf(run[n], t) in [PhaseOf(run[m], t), Refused(PhaseOf(run[m], t).cur)]
    decreases n
  {
    if m < n {
      LimitEndsCall(limit, run, steps, t, m, n - 1);
    }
  }

  // ----- every genuine failure is paid for by another thread ---------------------------

  /** Thread `t` holds a copy that the counter has moved away from. */
  ghost predicate Stale(s: State, t: Tid) {
    PhaseOf(s, t).Seen? && PhaseOf(s, t).cur != s.counter
  }

  /** How many of t's compare-and-swaps in [m, n) failed because the counter had changed. */
  ghost function GenuineFailures(run: seq<State>, steps: seq<Step>, t: Tid, m: nat, n: nat): nat
    requires |run| == |steps| + 1 && m <= n <= |steps|
  {
    if m == n then 0
    else GenuineFailures(run, steps, t, m, n - 1) + if steps[n - 1] == CasFail(t) && Stale(run[n - 1], t) then 1 else 0
  }

  /** How many steps of other threads in [m, n) changed the counter. */
  ghost function ChangesByOthers(run: seq<State>, steps: seq<Step>, t: Tid, m: nat, n: nat): nat
    requires |run| == |steps| + 1 && m <= n <= |steps|
  {
    if m == n then 0
    else ChangesByOthers(run, steps, t, m, n - 1)
         + if steps[n - 1].t != t && run[n - 1].counter != run[n].counter then 1 else 0
  }

  /** From any instant at which t's copy is not stale -- in particular the start of a call --
      t fails genuinely at most as often as other threads change the counter: the loop
      retries only because somebody else made progress. */
  lemma {:induction false} FailuresArePaidFor(limit: nat, run: seq<State>, steps: seq<Step>, t: Tid, m: nat, n: nat)
    requires IsRun(limit, run, steps) && m <= n <= |steps|
    requires !Stale(run[m], t)
    ensures GenuineFailures(run, steps, t, m, n) + (if Stale(run[n], t) then 1 else 0)
         <= ChangesByOthers(run, steps, t, m, n)
  {
    if m < n {
      FailuresArePaidFor(limit, run, steps, t, m, n - 1);
    }
  }

  // ----- what can be granted is granted ------------------------------------------------

  /** `run` goes on from `s` by the steps of thread `t` alone. */
  ghost predicate IsSoloRun(limit: nat, s: State, t: Tid, run: seq<State>, steps: seq<Step>) {
    && |run| == |steps| + 1 && run[0] == s
    && forall i :: 0 <= i < |steps| ==>
         steps[i].t == t && Enabled(limit, run[i], steps[i]) && run[i + 1] == Apply(run[i], steps[i])
  }

  /** One more step of the same thread in front. */
  lemma SoloStep(limit: nat, s: State, step: Step, run: seq<State>, steps: seq<Step>)
    requires Enabled(limit, s, step) && IsSoloRun(limit, Apply(s, step), step.t, run, steps)
    ensures IsSoloRun(limit, s, step.t, [s] + run, [step] + steps)
  {
  }

  /** The call in progress, or the next one: with budget left it is granted in one or two steps
      more unless its copy is at the limit. */
  lemma GrantedInCall(limit: nat, s: State, t: Tid) returns (run: seq<State>, steps: seq<Step>)
    requires s.counter < limit && (PhaseOf(s, t).Idle? || (PhaseOf(s, t).Seen? && PhaseOf(s, t).cur < limit))
    ensures IsSoloRun(limit, s, t, run, steps) && PhaseOf(run[|steps|], t).Holding?
    ensures forall step :: step in steps ==> !step.Refuse? && !step.Leave? && !step.Release?
    decreases PhaseOf(s, t) != Seen(s.counter)
  {
    if PhaseOf(s, t) == Seen(s.counter) {
      run, steps := [s, Apply(s, CasOk(t))], [CasOk(t)];
    } else {
      var step := if PhaseOf(s, t).Idle? then Load(t) else CasFail(t);
      var u := Apply(s, step);
      assert PhaseOf(u, t) == Seen(s.counter) && u.counter == s.counter;
      run, steps := GrantedInCall(limit, u, t);
      SoloStep(limit, s, step, run, steps);
      run, steps := [s] + run, [step] + steps;
    }
  }

  /** From every state with budget left, a thread that holds nothing comes to hold a descriptor by
      its own steps alone; in its present call, or in the next one after a refusal, which is
      what a copy at the limit leads to. */
  lemma BudgetIsGranted(limit: nat, s: State, t: Tid) returns (run: seq<State>, steps: seq<Step>)
    requires s.counter < limit && !PhaseOf(s, t).Holding?
    ensures IsSoloRun(limit, s, t, run, steps) && PhaseOf(run[|steps|], t).Holding?
    ensures Refuse(t) in steps <==> PhaseOf(s, t).Seen? && PhaseOf(s, t).cur >= limit
    decreases !PhaseOf(s, t).Refused?
  {
    var p := PhaseOf(s, t);
    if p.Refused? {
      var u := Apply(s, Leave(t));
      run, steps := GrantedInCall(limit, u, t);
      SoloStep(limit, s, Leave(t), run, steps);
      run, steps := [s] + run, [Leave(t)] + steps;
    } else if p.Seen? && p.cur >= limit {
      var u := Apply(s, Refuse(t));
      assert PhaseOf(u, t).Refused? && u.counter == s.counter;
      run, steps := BudgetIsGranted(limit, u, t);
      SoloStep(limit, s, Refuse(t), run, steps);
      run, steps := [s] + run, [Refuse(t)] + steps;
    } else {
      run, steps := GrantedInCall(limit, s, t);
    }
  }

  /** A solo run after a run is a run. */
  lemma RunGoesOn(limit: nat, run: seq<State>, steps: seq<Step>, t: Tid, more: seq<State>, moreSteps: seq<Step>)
    requires IsRun(limit, run, steps) && IsSoloRun(limit, run[|steps|], t, more, moreSteps)
    ensures IsRun(limit, run + more[1..], steps + moreSteps)
    ensures (run + more[1..])[|steps + moreSteps|] == more[|moreSteps|]
  {
    var all, allSteps := run + more[1..], steps + moreSteps;
    forall i | 0 <= i < |allSteps|
      ensures Enabled(limit, all[i], allSteps[i]) && all[i + 1] == Apply(all[i], allSteps[i])
    {
      if i >= |steps| {
        assert all[i] == more[i - |steps|] && all[i + 1] == more[i + 1 - |steps|];
      }
    }
  }

  /** The whole budget can be used: for every n up to the limit some run ends with n holders. */
  lemma {:induction false} EveryUnitIsUsable(limit: nat, n: nat) returns (run: seq<State>, steps: seq<Step>)
    requires n <= limit < 0x1_0000_0000
    ensures IsRun(limit, run, steps) && |Holders(run[|steps|])| == n
  {
    if n == 0 {
      run, steps := [START], [];
      assert Holders(START) == {};
    } else {
      run, steps := EveryUnitIsUsable(limit, n - 1);
      var s := run[|steps|];
      CounterIsHolders(limit, run, steps, |steps|);
      var t := FreshThread(s.phases.Keys);
      var more, moreSteps := GrantedInCall(limit, s, t);
      GrantAddsHolder(limit, s, t, more, moreSteps);
      RunGoesOn(limit, run, steps, t, more, moreSteps);
      run, steps := run + more[1..], steps + moreSteps;
    }
  }

  lemma FreshThread(threads: set<Tid>) returns (t: Tid)
    ensures t !in threads
  {
    t := 0;
    var left := threads;
    while t in left
      invariant left <= threads && forall u :: u in threads && u !in left ==> u < t
      decreases left
    {
      left := left - {t};
      t := t + 1;
    }
  }

  /** The other threads stay where they are. */
  lemma {:induction false} OthersStay(limit: nat, s: State, t: Tid, run: seq<State>, steps: seq<Step>, n: nat)
    requires IsSoloRun(limit, s, t, run, steps) && n < |run|
    ensures Holders(run[n]) - {t} == Holders(s) - {t}
  {
    if n > 0 {
      OthersStay(limit, s, t, run, steps, n - 1);
      HoldersAfter(limit, run[n - 1], steps[n - 1]);
    }
  }

  lemma OneMore(before: set<Tid>, after: set<Tid>, t: Tid)
    requires t !in before && t in after && after - {t} == before - {t}
    ensures |after| == |before| + 1
  {
    assert after == (after - {t}) + {t} && before - {t} == before;
  }

  lemma GrantAddsHolder(limit: nat, s: State, t: Tid, run: seq<State>, steps: seq<Step>)
    requires IsSoloRun(limit, s, t, run, steps) && t !in s.phases && PhaseOf(run[|steps|], t).Holding?
    ensures |Holders(run[|steps|])| == |Holders(s)| + 1
  {
    OthersStay(limit, s, t, run, steps, |steps|);
    hide IsSoloRun;
    var before, after := Holders(s), Holders(run[|steps|]);
    assert t !in before && t in after;
    OneMore(before, after, t);
  }
}
