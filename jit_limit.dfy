/** `JitLimit`: the LIMIT countdown of a JIT operator chain. */
module JitLimitOperator {
  import opened JitTypes

  /**
   * Whether each of `calls` successive tuples reaching the limit operator is passed on, when the
   * remaining limit is `limit` before the first of them. Every call counts the limit down by one.
   */
  function Outcomes(limit: int, calls: nat): (r: seq<bool>)
    ensures |r| == calls
    decreases calls
  {
    if calls == 0 then [] else [limit != 0] + Outcomes(limit - 1, calls - 1)
  }

  /** From a limit of n, the first n tuples are passed on and the one after them is not. */
  lemma {:induction false} FirstStopAfterN(n: nat, calls: nat)
    requires n < calls
    ensures forall i :: 0 <= i < n ==> Outcomes(n, calls)[i]
    ensures !Outcomes(n, calls)[n]
    decreases n
  {
    if n > 0 {
      FirstStopAfterN(n - 1, calls - 1);
      assert Outcomes(n, calls) == [true] + Outcomes(n - 1, calls - 1);
    }
  }

  /**
   * After the first stop the countdown alone passes every later tuple again: stopping the chain
   * rests on the chunk offset moved at the stop and on `jit_end_operator_limit`.
   */
  lemma {:induction false} PassesAgainAfterStop(n: nat, calls: nat)
    requires n < calls
    ensures forall i :: n < i < calls ==> Outcomes(n, calls)[i]
    decreases n
  {
    if n == 0 {
      NegativeLimitPasses(-1, calls - 1);
      assert Outcomes(0, calls) == [false] + Outcomes(-1, calls - 1);
    } else {
      PassesAgainAfterStop(n - 1, calls - 1);
      assert Outcomes(n, calls) == [true] + Outcomes(n - 1, calls - 1);
    }
  }

  /** A limit counted below zero passes every tuple. */
  lemma {:induction false} NegativeLimitPasses(limit: int, calls: nat)
    requires limit < 0
    ensures forall i :: 0 <= i < calls ==> Outcomes(limit, calls)[i]
    decreases calls
  {
    if calls > 0 {
      NegativeLimitPasses(limit - 1, calls - 1);
      assert Outcomes(limit, calls) == [true] + Outcomes(limit - 1, calls - 1);
    }
  }

  /** Counted over any number of calls starting from n, at most n tuples are passed on before a stop. */
  function PassedBeforeStop(outcomes: seq<bool>): (k: nat)
    ensures k <= |outcomes|
    ensures forall i :: 0 <= i < k ==> outcomes[i]
    ensures k < |outcomes| ==> !outcomes[k]
  {
    if |outcomes| == 0 || !outcomes[0] then 0 else 1 + PassedBeforeStop(outcomes[1..])
  }

  /** Exactly min(n, calls) tuples are passed on before the first stop. */
  lemma ExactlyNPassed(n: nat, calls: nat)
    ensures PassedBeforeStop(Outcomes(n, calls)) == if calls <= n then calls else n
  {
    var o := Outcomes(n, calls);
    if calls <= n {
      LimitNotReached(n, calls);
      assert forall i :: 0 <= i < calls ==> o[i];
      PassedAll(o);
    } else {
      FirstStopAfterN(n, calls);
      PassedUpToFirstStop(o, n);
    }
  }

  lemma {:induction false} LimitNotReached(n: nat, calls: nat)
    requires calls <= n
    ensures forall i :: 0 <= i < calls ==> Outcomes(n, calls)[i]
    decreases calls
  {
    if calls > 0 {
      LimitNotReached(n - 1, calls - 1);
      assert Outcomes(n, calls) == [true] + Outcomes(n - 1, calls - 1);
    }
  }

  lemma PassedAll(o: seq<bool>)
    requires forall i :: 0 <= i < |o| ==> o[i]
    ensures PassedBeforeStop(o) == |o|
  {
  }

  lemma PassedUpToFirstStop(o: seq<bool>, n: nat)
    requires n < |o| && !o[n]
    requires forall i :: 0 <= i < n ==> o[i]
    ensures PassedBeforeStop(o) == n
  {
  }

  class JitLimit {
    constructor ()
    {
    }

    function Description(): (d: string)
    {
      "[Limit]"
    }

    /**
     * `_consume`: a tuple is passed on while the limit has not run out; the call that finds it at 0
     * instead moves the chunk offset to one below its maximum, so that the reader's loop over the
     * chunk ends after this tuple, and calls `jit_end_operator_limit`, whose definition is not part
     * of this model. The limit is counted down in both cases.
     */
    method Consume(context: JitRuntimeContext) returns (emitted: bool)
      modifies context`limitRows, context`chunkOffset
      ensures emitted <==> old(context.limitRows) != 0
      ensures context.limitRows == old(context.limitRows) - 1
      ensures context.chunkOffset == if emitted then old(context.chunkOffset) else MAX_CHUNK_OFFSET - 1
      ensures [emitted] == Outcomes(old(context.limitRows), 1)
    {
      emitted := context.limitRows != 0;
      context.limitRows := context.limitRows - 1;
      if !emitted {
        context.chunkOffset := MAX_CHUNK_OFFSET - 1;
      }
    }
  }
}
