/** Posting a root with bounded, bumped fees: server/internal/chain/relayer.go. */
module Relaying {
  import opened Wrappers

  const WEI_PER_GWEI := 1_000_000_000

  datatype RelayError = RpcFailed | NoBaseFee | FeeCeilingExceeded

  /** What a setRoot transaction of one call is sent with. */
  datatype Tx = Tx(nonce: nat, tip: nat, feeCap: nat)

  /** +13%, truncated, and at least 1 wei. */
  function Bump(v: nat): nat {
    var inc := 13 * v / 100;
    v + if inc == 0 then 1 else inc
  }

  predicate UnderCeiling(fee: nat, ceiling: Option<nat>) {
    ceiling.Some? ==> fee <= ceiling.value
  }

  /** What the chain and the operator promise of a transaction's fees. */
  predicate FeesSafe(tx: Tx, ceiling: Option<nat>) {
    tx.tip <= tx.feeCap && UnderCeiling(tx.feeCap, ceiling)
  }

  /** A node accepts the replacement: both fees reach 110% of the old ones, rounded down, and grow. */
  predicate Replaces(newer: Tx, older: Tx) {
    && newer.nonce == older.nonce
    && newer.tip > older.tip && newer.tip >= 110 * older.tip / 100
    && newer.feeCap > older.feeCap && newer.feeCap >= 110 * older.feeCap / 100
  }

  lemma BumpClears(v: nat)
    ensures Bump(v) > v && Bump(v) >= 110 * v / 100
  {}

  /** The exact rise: 13 percent rounded down, but never less than 1 wei. */
  lemma BumpExact(v: nat)
    ensures v < 8 ==> Bump(v) == v + 1
    ensures v >= 8 ==> 13 * v - 100 < 100 * (Bump(v) - v) <= 13 * v
  {
    var inc := 13 * v / 100;
    assert 100 * inc <= 13 * v < 100 * inc + 100;
  }

  lemma BumpMonotone(u: nat, v: nat)
    requires u <= v
    ensures Bump(u) <= Bump(v)
  {}

  /** The bump reaches 110% without rounding down as well, except at eight tiny fees. */
  lemma BumpClearsExactly(v: nat)
    ensures 100 * Bump(v) >= 110 * v <==> !(11 <= v <= 15 || 21 <= v <= 23)
  {
    var inc := 13 * v / 100;
    if v < 34 {
      SmallIncrements(v);
    } else {
      assert 100 * inc > 13 * v - 100;
    }
  }

  lemma SmallIncrements(v: nat)
    requires v < 34
    ensures 13 * v / 100 == if v <= 7 then 0 else if v <= 15 then 1 else if v <= 23 then 2 else if v <= 30 then 3 else 4
  {}

  /** The transaction of attempt i. */
  ghost function Attempt(first: Tx, i: nat): Tx {
    if i == 0 then first
    else
      var before := Attempt(first, i - 1);
      Tx(before.nonce, Bump(before.tip), Bump(before.feeCap))
  }

  /** Every later attempt keeps the nonce and legally replaces every earlier one. */
  lemma {:induction false} AttemptsReplace(first: Tx, i: nat, j: nat)
    requires i < j
    ensures Replaces(Attempt(first, j), Attempt(first, i))
    decreases j
  {
    var before := Attempt(first, j - 1);
    BumpClears(before.tip);
    BumpClears(before.feeCap);
    if i == j - 1 {
    } else {
      AttemptsReplace(first, i, j - 1);
    }
  }

  lemma {:induction false} AttemptsOrdered(first: Tx, i: nat)
    requires first.tip <= first.feeCap
    ensures Attempt(first, i).tip <= Attempt(first, i).feeCap
    ensures Attempt(first, i).nonce == first.nonce
  {
    if i == 0 {
    } else {
      AttemptsOrdered(first, i - 1);
      BumpMonotone(Attempt(first, i - 1).tip, Attempt(first, i - 1).feeCap);
    }
  }

  class TransactOpts {
    var gasTipCap: nat
    var gasFeeCap: nat
    var nonce: nat

    constructor ()
      ensures gasTipCap == gasFeeCap == nonce == 0
    {
      gasTipCap, gasFeeCap, nonce := 0, 0, 0;
    }

    ghost function Now(): Tx
      reads this
    {
      Tx(nonce, gasTipCap, gasFeeCap)
    }
  }

  /** One attempt's fate: the send is refused; the transaction is mined; or waiting ends without a
      receipt, with or without the caller's context being done. elapsed is the time waited. */
  datatype Reply =
    | SendRefused
    | Mined(success: bool, elapsed: nat)
    | NoReceipt(contextDone: bool, elapsed: nat)

  datatype PostResult = SendError | Confirmed | Reverted | ContextDone | NotConfirmed | StuckAtCeiling

  /** Attempt i ends without a receipt and another one follows. */
  ghost predicate Retries(ceiling: Option<nat>, maxReplacements: int, first: Tx, reply: Reply, i: nat) {
    && reply.NoReceipt? && !reply.contextDone
    && i < maxReplacements
    && UnderCeiling(Attempt(first, i + 1).feeCap, ceiling)
  }

  /** How attempt i, when it is the last, ends the call. */
  ghost function ResultOf(maxReplacements: int, reply: Reply, i: nat): PostResult {
    match reply
    case SendRefused => SendError
    case Mined(success, _) => if success then Confirmed else Reverted
    case NoReceipt(contextDone, _) =>
      if contextDone then ContextDone else if i >= maxReplacements then NotConfirmed else StuckAtCeiling
  }

  /** What a call does that starts with the transaction first and whose attempts fare as replies say:
      it tries sent, one after the other, and returns result. */
  ghost predicate IsCall(ceiling: Option<nat>, maxReplacements: int, first: Tx, replies: nat -> Reply,
                         sent: seq<Tx>, result: PostResult) {
    && sent != []
    && (forall i :: 0 <= i < |sent| ==> sent[i] == Attempt(first, i))
    && (forall i :: 0 <= i < |sent| - 1 ==> Retries(ceiling, maxReplacements, first, replies(i), i))
    && var last := |sent| - 1;
       && !Retries(ceiling, maxReplacements, first, replies(last), last)
       && result == ResultOf(maxReplacements, replies(last), last)
  }

  /** What holds of everything a call sends. */
  ghost predicate SentSafely(ceiling: Option<nat>, maxReplacements: int, sent: seq<Tx>) {
    && (|sent| <= 1 || |sent| <= maxReplacements + 1)
    && (forall i :: 0 <= i < |sent| ==> FeesSafe(sent[i], ceiling))
    && (forall i, j :: 0 <= i < j < |sent| ==> Replaces(sent[j], sent[i]))
  }

  /** Both fees are bumped at the same nonce, under the ceiling. */
  ghost predicate FollowedUp(ceiling: Option<nat>, sent: seq<Tx>, i: nat)
    requires i + 1 < |sent|
  {
    && sent[i + 1] == Tx(sent[i].nonce, Bump(sent[i].tip), Bump(sent[i].feeCap))
    && (ceiling.Some? ==> sent[i + 1].feeCap <= ceiling.value)
  }

  /** How a call ends, read off the reply to its last transaction; all earlier ones timed out and were replaced. */
  lemma CallExplained(ceiling: Option<nat>, maxReplacements: int, first: Tx, replies: nat -> Reply,
                      sent: seq<Tx>, result: PostResult)
    requires IsCall(ceiling, maxReplacements, first, replies, sent, result)
    ensures sent != [] && sent[0] == first
    ensures forall i :: 0 <= i < |sent| - 1 ==> replies(i).NoReceipt? && !replies(i).contextDone
    ensures |sent| == 1 || |sent| - 1 <= maxReplacements
    ensures forall i :: 0 <= i < |sent| - 1 ==> FollowedUp(ceiling, sent, i)
    ensures
      var last, tx := replies(|sent| - 1), sent[|sent| - 1];
      && (result == SendError <==> last.SendRefused?)
      && (result == Confirmed <==> last.Mined? && last.success)
      && (result == Reverted <==> last.Mined? && !last.success)
      && (result == ContextDone <==> last.NoReceipt? && last.contextDone)
      && (result == NotConfirmed <==> last.NoReceipt? && !last.contextDone && |sent| > maxReplacements)
      && (result == StuckAtCeiling <==> && last.NoReceipt? && !last.contextDone && |sent| <= maxReplacements
                                        && ceiling.Some? && Bump(tx.feeCap) > ceiling.value)
  {
    hide Bump, Attempt;
    AttemptZero(first);
    var last := |sent| - 1;
    AttemptStep(first, last);
    forall i | 0 <= i < |sent| - 1
      ensures FollowedUp(ceiling, sent, i)
    {
      assert Retries(ceiling, maxReplacements, first, replies(i), i);
      NextAttempt(first, i);
    }
    assert last > 0 ==> Retries(ceiling, maxReplacements, first, replies(last - 1), last - 1);
  }

  lemma NextAttempt(first: Tx, i: nat)
    ensures
      var before := Attempt(first, i);
      Attempt(first, i + 1) == Tx(before.nonce, Bump(before.tip), Bump(before.feeCap))
  {}

  function Elapsed(r: Reply): nat {
    if r.SendRefused? then 0 else r.elapsed
  }

  /** The time waited for the first n transactions. */
  ghost function TotalWaited(replies: nat -> Reply, n: nat): nat {
    if n == 0 then 0 else TotalWaited(replies, n - 1) + Elapsed(replies(n - 1))
  }

  lemma WaitedNext(replies: nat -> Reply, n: nat)
    ensures TotalWaited(replies, 0) == 0
    ensures TotalWaited(replies, n + 1) == TotalWaited(replies, n) + Elapsed(replies(n))
  {}

  /** The bound on a whole call is attained when every wait runs into the timeout. */
  lemma {:induction false} AllWaitsTimeOut(replies: nat -> Reply, n: nat, timeout: nat)
    requires forall i :: 0 <= i < n ==> replies(i) == NoReceipt(false, timeout)
    ensures TotalWaited(replies, n) == n * timeout
  {
    if n == 0 {
    } else {
      AllWaitsTimeOut(replies, n - 1, timeout);
      assert n * timeout == (n - 1) * timeout + timeout;
    }
  }

  /** n waits of one timeout each. */
  function Waits(n: int, timeout: nat): int {
    n * timeout
  }

  class Relayer {
    const maxFeeWei: Option<nat>
    const confirmTimeout: nat
    const maxReplacements: int

    /** Non-positive options leave the ceiling, or the timeout, disabled. */
    constructor (maxFeeGwei: int, timeout: int, maxReplacements: int)
      ensures maxFeeWei == if maxFeeGwei > 0 then Some(maxFeeGwei * 1_000_000_000) else None
      ensures confirmTimeout == if timeout > 0 then timeout else 0
      ensures this.maxReplacements == maxReplacements
    {
      this.maxFeeWei := if maxFeeGwei > 0 then Some(maxFeeGwei * WEI_PER_GWEI) else None;
      this.confirmTimeout := if timeout > 0 then timeout else 0;
      this.maxReplacements := maxReplacements;
    }

    function MaxPostDuration(): (r: int)
      ensures r == (maxReplacements + 1) * confirmTimeout
    {
      Waits(maxReplacements + 1, confirmTimeout)
    }

    /** tip, head and pending are the answers of the node; a head may lack a base fee. */
    method ApplyGasBounds(opts: TransactOpts, tip: Option<nat>, head: Option<Option<nat>>, pending: Option<nat>)
        returns (err: Outcome<RelayError>)
      modifies opts
      ensures err.Pass? ==>
                && tip.Some? && head.Some? && head.value.Some? && pending.Some?
                && FeesSafe(opts.Now(), maxFeeWei)
                && opts.gasTipCap == tip.value && opts.nonce == pending.value
                && opts.gasFeeCap >= head.value.value + tip.value
                && opts.gasFeeCap == (if maxFeeWei.Some? && maxFeeWei.value < 2 * head.value.value + tip.value
                                      then maxFeeWei.value else 2 * head.value.value + tip.value)
      ensures err == Fail(FeeCeilingExceeded) <==>
                && tip.Some? && head.Some? && head.value.Some?
                && !UnderCeiling(head.value.value + tip.value, maxFeeWei)
      ensures err == Fail(FeeCeilingExceeded) ==> opts.Now() == old(opts.Now())
      ensures err == Fail(NoBaseFee) <==> tip.Some? && head == Some(None)
      ensures err.Pass? <==>
                && tip.Some? && head.Some? && head.value.Some? && pending.Some?
                && UnderCeiling(head.value.value + tip.value, maxFeeWei)
    {
      if tip.None? || head.None? {
        return Fail(RpcFailed);
      }
      if head.value.None? {
        return Fail(NoBaseFee);
      }
      var baseFee := head.value.value;
      var minFee := baseFee + tip.value;
      if maxFeeWei.Some? && minFee > maxFeeWei.value {
        return Fail(FeeCeilingExceeded);
      }
      var feeCap := 2 * baseFee + tip.value;
      if maxFeeWei.Some? && feeCap > maxFeeWei.value {
        feeCap := maxFeeWei.value;
      }
      opts.gasTipCap := tip.value;
      opts.gasFeeCap := feeCap;
      if pending.None? {
        return Fail(RpcFailed);
      }
      opts.nonce := pending.value;
      return Pass;
    }

    /** Raises both fees, or leaves them when the cap would pass the ceiling. */
    method BumpFees(opts: TransactOpts) returns (err: Outcome<RelayError>)
      modifies opts
      ensures err == if maxFeeWei.Some? && Bump(old(opts.gasFeeCap)) > maxFeeWei.value
                     then Fail(FeeCeilingExceeded) else Pass
      ensures err.Pass? <==> UnderCeiling(Bump(old(opts.gasFeeCap)), maxFeeWei)
      ensures opts.nonce == old(opts.nonce)
      ensures opts.gasTipCap == if err.Pass? then Bump(old(opts.gasTipCap)) else old(opts.gasTipCap)
      ensures opts.gasFeeCap == if err.Pass? then Bump(old(opts.gasFeeCap)) else old(opts.gasFeeCap)
      ensures opts.Now() == if err.Pass? then Attempt(old(opts.Now()), 1) else old(opts.Now())
    {
      var nextFeeCap := Bump(opts.gasFeeCap);
      if maxFeeWei.Some? && nextFeeCap > maxFeeWei.value {
        return Fail(FeeCeilingExceeded);
      }
      assert Attempt(opts.Now(), 1) == Tx(opts.nonce, Bump(opts.gasTipCap), nextFeeCap) by {
        assert Attempt(opts.Now(), 0) == opts.Now();
      }
      opts.gasTipCap := Bump(opts.gasTipCap);
      opts.gasFeeCap := nextFeeCap;
      return Pass;
    }

    /** replies(i) is the fate of attempt i; a positive timeout bounds each wait. */
    method SendAndConfirm(opts: TransactOpts, replies: nat -> Reply)
        returns (result: PostResult, sent: seq<Tx>, waited: nat)
      requires FeesSafe(opts.Now(), maxFeeWei)
      requires confirmTimeout > 0 ==> forall i :: Elapsed(replies(i)) <= confirmTimeout
      modifies opts
      ensures IsCall(maxFeeWei, maxReplacements, old(opts.Now()), replies, sent, result)
      ensures SentSafely(maxFeeWei, maxReplacements, sent)
      ensures forall i :: 0 <= i < |sent| ==> sent[i].nonce == old(opts.nonce)
      ensures result == Confirmed <==> replies(|sent| - 1).Mined? && replies(|sent| - 1).success
      ensures result == Reverted <==> replies(|sent| - 1).Mined? && !replies(|sent| - 1).success
      ensures waited == TotalWaited(replies, |sent|)
      ensures confirmTimeout > 0 && maxReplacements >= 0 ==> waited <= MaxPostDuration()
    {
      hide Bump, Attempt, Waits, Replaces, TotalWaited, UnderCeiling;
      ghost var first := opts.Now();
      AttemptZero(first);
      WaitBound(0, maxReplacements, confirmTimeout);
      sent, waited := [], 0;
      WaitedNext(replies, 0);
      var attempt := 0;
      while true
        invariant attempt == |sent| <= (if maxReplacements >= 0 then maxReplacements else 0)
        invariant opts.Now() == Attempt(first, attempt)
        invariant FeesSafe(opts.Now(), maxFeeWei)
        invariant forall i :: 0 <= i < attempt ==> sent[i] == Attempt(first, i) && FeesSafe(sent[i], maxFeeWei)
        invariant forall i :: 0 <= i < attempt ==> Retries(maxFeeWei, maxReplacements, first, replies(i), i)
        invariant waited == TotalWaited(replies, attempt)
        invariant confirmTimeout > 0 ==> waited <= Waits(attempt, confirmTimeout)
        decreases maxReplacements - attempt
      {
        sent := sent + [Tx(opts.nonce, opts.gasTipCap, opts.gasFeeCap)];
        AttemptsAreLegal(first, sent);
        WaitBound(attempt, maxReplacements, confirmTimeout);
        var reply := replies(attempt);
        WaitedNext(replies, attempt);
        if reply.SendRefused? {
          return SendError, sent, waited;
        }
        waited := waited + reply.elapsed;
        if reply.Mined? {
          return if reply.success then Confirmed else Reverted, sent, waited;
        }
        if reply.contextDone {
          return ContextDone, sent, waited;
        }
        if attempt >= maxReplacements {
          return NotConfirmed, sent, waited;
        }
        var bumped := BumpFees(opts);
        AttemptStep(first, attempt);
        if bumped.Fail? {
          return StuckAtCeiling, sent, waited;
        }
        AttemptsOrdered(first, attempt + 1);
        attempt := attempt + 1;
      }
    }

    /** Bounds, nonce, then the send loop. A call that fails before its first send sends nothing. */
    method PostRoot(tip: Option<nat>, head: Option<Option<nat>>, pending: Option<nat>, replies: nat -> Reply)
        returns (result: Result<PostResult, RelayError>, sent: seq<Tx>, waited: nat)
      requires confirmTimeout > 0 ==> forall i :: Elapsed(replies(i)) <= confirmTimeout
      ensures result.Success? <==>
                && tip.Some? && head.Some? && head.value.Some? && pending.Some?
                && UnderCeiling(head.value.value + tip.value, maxFeeWei)
      ensures result == Failure(FeeCeilingExceeded) <==>
                && tip.Some? && head.Some? && head.value.Some?
                && !UnderCeiling(head.value.value + tip.value, maxFeeWei)
      ensures result == Failure(NoBaseFee) <==> tip.Some? && head == Some(None)
      ensures result.Failure? ==> sent == [] && waited == 0
      ensures result.Success? ==>
                && sent != []
                && sent[0].nonce == pending.value && sent[0].tip == tip.value
                && sent[0].feeCap >= head.value.value + tip.value
                && sent[0].feeCap == (if maxFeeWei.Some? && maxFeeWei.value < 2 * head.value.value + tip.value
                                      then maxFeeWei.value else 2 * head.value.value + tip.value)
                && IsCall(maxFeeWei, maxReplacements, sent[0], replies, sent, result.value)
                && SentSafely(maxFeeWei, maxReplacements, sent)
                && waited == TotalWaited(replies, |sent|)
                && (confirmTimeout > 0 && maxReplacements >= 0 ==> waited <= MaxPostDuration())
    {
      var opts := new TransactOpts();
      var err := ApplyGasBounds(opts, tip, head, pending);
      if err.Fail? {
        return Failure(err.error), [], 0;
      }
      AttemptZero(opts.Now());
      var posted;
      posted, sent, waited := SendAndConfirm(opts, replies);
      return Success(posted), sent, waited;
    }
  }

  lemma AttemptZero(first: Tx)
    ensures Attempt(first, 0) == first
  {}

  lemma AttemptStep(first: Tx, i: nat)
    ensures Attempt(Attempt(first, i), 1) == Attempt(first, i + 1)
    ensures Attempt(first, i + 1).feeCap == Bump(Attempt(first, i).feeCap)
  {
    assert Attempt(Attempt(first, i), 0) == Attempt(first, i);
  }

  lemma AttemptsAreLegal(first: Tx, sent: seq<Tx>)
    requires first.tip <= first.feeCap
    requires forall i :: 0 <= i < |sent| ==> sent[i] == Attempt(first, i)
    ensures forall i :: 0 <= i < |sent| ==> sent[i].nonce == first.nonce
    ensures forall i, j :: 0 <= i < j < |sent| ==> Replaces(sent[j], sent[i])
  {
    forall i | 0 <= i < |sent| {
      AttemptsOrdered(first, i);
    }
    forall i, j | 0 <= i < j < |sent| {
      AttemptsReplace(first, i, j);
    }
  }

  lemma WaitBound(attempt: nat, maxReplacements: int, timeout: nat)
    ensures Waits(0, timeout) == 0
    ensures Waits(attempt, timeout) + timeout == Waits(attempt + 1, timeout)
    ensures attempt <= maxReplacements ==>
              && Waits(attempt, timeout) <= Waits(maxReplacements + 1, timeout)
              && Waits(attempt + 1, timeout) <= Waits(maxReplacements + 1, timeout)
  {}
}
