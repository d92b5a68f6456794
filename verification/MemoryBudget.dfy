/** The memory budget of the text parser (src/ascii-parser-basetype.cc, CHECK_MEMORY_USAGE and
    REDUCE_MEMORY_USAGE), in 64-bit unsigned arithmetic. */
module MemoryBudget {

  const WORD := 0x1_0000_0000_0000_0000

  type uint64 = x: int | 0 <= x < WORD

  function Sub(a: uint64, b: uint64): uint64 { (a - b) % WORD }

  function Add(a: uint64, b: uint64): uint64 { (a + b) % WORD }

  datatype Op = Charge(bytes: uint64) | Reduce(bytes: uint64)

  /** Usage as a mathematical number: a charge counts when the sum fits, a reduction of more than
      the usage does nothing. */
  function After(limit: nat, usage: nat, op: Op): nat {
    match op
    case Charge(n) => if usage + n <= limit then usage + n else usage
    case Reduce(n) => if n <= usage then usage - n else usage
  }

  predicate Accepted(limit: nat, usage: nat, op: Op) {
    op.Charge? ==> usage + op.bytes <= limit
  }

  class Budget {
    const limit: uint64
    var usage: uint64

    ghost predicate Valid()
      reads this`usage
    {
      usage <= limit
    }

    constructor (limit: uint64)
      ensures Valid() && this.limit == limit && usage == 0
    {
      this.limit, usage := limit, 0;
    }

    /** A charge is accepted exactly when the sum fits; nothing wraps. */
    method TryCharge(bytes: uint64) returns (ok: bool)
      requires Valid()
      modifies this`usage
      ensures Valid() && ok == (old(usage) + bytes <= limit)
      ensures usage == if ok then old(usage) + bytes else old(usage)
    {
      if bytes > Sub(limit, usage) {
        return false;
      }
      usage := Add(usage, bytes);
      ok := true;
    }

    method Release(bytes: uint64)
      requires Valid()
      modifies this`usage
      ensures Valid() && usage == if bytes <= old(usage) then old(usage) - bytes else old(usage)
    {
      if usage >= bytes {
        usage := Sub(usage, bytes);
      }
    }

    method Perform(op: Op) returns (ok: bool)
      requires Valid()
      modifies this`usage
      ensures Valid() && ok == Accepted(limit, old(usage), op) && usage == After(limit, old(usage), op)
    {
      ok := true;
      match op
      case Charge(n) => ok := TryCharge(n);
      case Reduce(n) => Release(n);
    }

    /** Any run of charges and reductions. */
    method Run(ops: seq<Op>) returns (accepted: seq<bool>)
      requires Valid()
      modifies this`usage
      ensures Valid() && accepted == Verdicts(limit, old(usage), ops) && usage == Final(limit, old(usage), ops)
    {
      hide Accepted, After;
      accepted := [];
      var i := 0;
      assert ops[0..] == ops;
      while i < |ops|
        invariant Valid() && 0 <= i <= |ops|
        invariant accepted + Verdicts(limit, usage, ops[i..]) == Verdicts(limit, old(usage), ops)
        invariant Final(limit, usage, ops[i..]) == Final(limit, old(usage), ops)
      {
        assert ops[i..][0] == ops[i] && ops[i..][1..] == ops[i + 1..];
        var ok := Perform(ops[i]);
        accepted := accepted + [ok];
        i := i + 1;
      }
      assert ops[i..] == [];
    }
  }

  function Verdicts(limit: nat, usage: nat, ops: seq<Op>): (vs: seq<bool>)
    ensures |vs| == |ops|
    decreases |ops|
  {
    if ops == [] then [] else [Accepted(limit, usage, ops[0])] + Verdicts(limit, After(limit, usage, ops[0]), ops[1..])
  }

  function Final(limit: nat, usage: nat, ops: seq<Op>): nat
    decreases |ops|
  {
    if ops == [] then usage else Final(limit, After(limit, usage, ops[0]), ops[1..])
  }

  /** The bytes of the accepted charges. */
  function Charged(limit: nat, usage: nat, ops: seq<Op>): nat
    decreases |ops|
  {
    if ops == [] then 0
    else (if ops[0].Charge? && usage + ops[0].bytes <= limit then ops[0].bytes else 0)
         + Charged(limit, After(limit, usage, ops[0]), ops[1..])
  }

  /** The bytes of the reductions that found at least as much in use; the others are ignored. */
  function Released(limit: nat, usage: nat, ops: seq<Op>): nat
    decreases |ops|
  {
    if ops == [] then 0
    else (if ops[0].Reduce? && ops[0].bytes <= usage then ops[0].bytes else 0)
         + Released(limit, After(limit, usage, ops[0]), ops[1..])
  }

  /** Over any run the usage stays within the limit and is what was charged less what was
      released. */
  lemma {:induction false} RunBalances(limit: nat, usage: nat, ops: seq<Op>)
    requires usage <= limit
    ensures Final(limit, usage, ops) <= limit
    ensures Final(limit, usage, ops) == usage + Charged(limit, usage, ops) - Released(limit, usage, ops)
    decreases |ops|
  {
    if ops != [] {
      RunBalances(limit, After(limit, usage, ops[0]), ops[1..]);
    }
  }

  /** A charge is accepted exactly when it fits on top of what the operations before it left in
      use; a reduction always is. */
  lemma {:induction false} VerdictsExactly(limit: nat, usage: nat, ops: seq<Op>, i: nat)
    requires i < |ops|
    ensures Verdicts(limit, usage, ops)[i] <==>
      match ops[i] case Charge(n) => Final(limit, usage, ops[..i]) + n <= limit case Reduce(_) => true
    decreases |ops|
  {
    if i > 0 {
      VerdictsExactly(limit, After(limit, usage, ops[0]), ops[1..], i - 1);
      assert ops[..i][1..] == ops[1..][..i - 1];
    }
  }
}
