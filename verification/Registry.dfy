/** The on-chain registry: onchain-contract/contracts/SMTRootStorage.sol. */
module Registry {
  import opened Wrappers

  type Address = nat
  type IssuerId = nat

  datatype RootInfo = RootInfo(root: nat, crlNumber: nat, updatedAt: nat)

  datatype RootUpdated = RootUpdated(issuerId: IssuerId, root: nat, crlNumber: nat)

  datatype Revert = Unauthorized | StaleCRL

  /** One external call, with the block it is mined in. */
  datatype Call = Call(sender: Address, issuerId: IssuerId, newRoot: nat, crlNumber: nat, timestamp: nat)

  /** A Solidity mapping: absent keys read as the zero record. */
  type Roots = map<IssuerId, RootInfo>

  function InfoOf(roots: Roots, id: IssuerId): RootInfo {
    if id in roots then roots[id] else RootInfo(0, 0, 0)
  }

  class SMTRootStorage {
    const relayer: Address
    var roots: Roots

    /** The emitted events, oldest first. */
    var log: seq<RootUpdated>

    ghost predicate Valid()
      reads this
    {
      Consistent(roots, log)
    }

    constructor (relayer: Address)
      ensures Valid() && this.relayer == relayer && roots == map[] && log == []
    {
      this.relayer := relayer;
      roots, log := map[], [];
    }

    method SetRoot(call: Call) returns (r: Outcome<Revert>)
      requires Valid()
      modifies this
      ensures Valid()
      ensures r == if call.sender != relayer then Fail(Unauthorized)
                   else if call.crlNumber <= InfoOf(old(roots), call.issuerId).crlNumber then Fail(StaleCRL)
                   else Pass
      ensures (roots, log) == After(relayer, old((roots, log)), call)
      ensures r.Fail? ==> roots == old(roots) && log == old(log)
      ensures r.Pass? ==>
                && roots == old(roots)[call.issuerId := RootInfo(call.newRoot, call.crlNumber, call.timestamp)]
                && log == old(log) + [RootUpdated(call.issuerId, call.newRoot, call.crlNumber)]
    {
      if call.sender != relayer {
        return Fail(Unauthorized);
      }
      if !(call.crlNumber > InfoOf(roots, call.issuerId).crlNumber) {
        return Fail(StaleCRL);
      }
      ConsistentAfter(relayer, (roots, log), call);
      roots := roots[call.issuerId := RootInfo(call.newRoot, call.crlNumber, call.timestamp)];
      log := log + [RootUpdated(call.issuerId, call.newRoot, call.crlNumber)];
      return Pass;
    }

    method GetRoot(id: IssuerId) returns (root: nat)
      requires Valid()
      ensures root == InfoOf(roots, id).root
      ensures root == if LogOf(log, id) == [] then 0 else LogOf(log, id)[|LogOf(log, id)| - 1].root
    {
      if id in roots {
        return roots[id].root;
      }
      return 0;
    }
  }

  // -------------------------------------------------------------- all histories

  type State = (Roots, seq<RootUpdated>)

  ghost predicate Accepts(relayer: Address, s: State, call: Call) {
    call.sender == relayer && call.crlNumber > InfoOf(s.0, call.issuerId).crlNumber
  }

  ghost function After(relayer: Address, s: State, call: Call): State {
    if Accepts(relayer, s, call) then
      (s.0[call.issuerId := RootInfo(call.newRoot, call.crlNumber, call.timestamp)],
       s.1 + [RootUpdated(call.issuerId, call.newRoot, call.crlNumber)])
    else s
  }

  ghost function AfterAll(relayer: Address, s: State, calls: seq<Call>): State
    decreases |calls|
  {
    if calls == [] then s
    else After(relayer, AfterAll(relayer, s, calls[..|calls| - 1]), calls[|calls| - 1])
  }

  /** Calls take effect one after the other. A registry that never heard of the issuer takes any positive number
      from its relayer, and nobody else's. */
  lemma CallsInTurn(relayer: Address, s: State, calls: seq<Call>, call: Call)
    ensures AfterAll(relayer, s, []) == s
    ensures AfterAll(relayer, s, calls + [call]) == After(relayer, AfterAll(relayer, s, calls), call)
    ensures call.issuerId !in s.0 ==> (Accepts(relayer, s, call) <==> call.sender == relayer && call.crlNumber > 0)
    ensures call.issuerId in s.0 ==>
              (Accepts(relayer, s, call)
               <==> call.sender == relayer && call.crlNumber > s.0[call.issuerId].crlNumber)
  {
    assert (calls + [call])[..|calls|] == calls;
  }

  /** One issuer's events. */
  ghost function LogOf(log: seq<RootUpdated>, id: IssuerId): seq<RootUpdated> {
    if log == [] then []
    else
      var front, last := LogOf(log[..|log| - 1], id), log[|log| - 1];
      if last.issuerId == id then front + [last] else front
  }

  ghost predicate StrictlyIncreasing(log: seq<RootUpdated>) {
    forall i, j :: 0 <= i < j < |log| ==> log[i].crlNumber < log[j].crlNumber
  }

  /** The issuer's numbers strictly increase and are positive, and what is stored is its last event. */
  ghost predicate ConsistentFor(roots: Roots, mine: seq<RootUpdated>, id: IssuerId) {
    && StrictlyIncreasing(mine)
    && (forall i :: 0 <= i < |mine| ==> mine[i].issuerId == id && mine[i].crlNumber > 0)
    && (mine == [] <==> id !in roots)
    && (mine != [] ==>
          var last := mine[|mine| - 1];
          roots[id].root == last.root && roots[id].crlNumber == last.crlNumber)
  }

  ghost predicate Consistent(roots: Roots, log: seq<RootUpdated>) {
    forall id: IssuerId :: ConsistentFor(roots, LogOf(log, id), id)
  }

  lemma LogOfSnoc(log: seq<RootUpdated>, e: RootUpdated, id: IssuerId)
    ensures LogOf(log + [e], id) == if e.issuerId == id then LogOf(log, id) + [e] else LogOf(log, id)
  {
    assert (log + [e])[..|log|] == log;
  }

  lemma ConsistentAfter(relayer: Address, s: State, call: Call)
    requires Consistent(s.0, s.1)
    ensures Consistent(After(relayer, s, call).0, After(relayer, s, call).1)
  {
    hide LogOf, ConsistentFor;
    var e := RootUpdated(call.issuerId, call.newRoot, call.crlNumber);
    var s' := After(relayer, s, call);
    forall id: IssuerId
      ensures ConsistentFor(s'.0, LogOf(s'.1, id), id)
    {
      LogOfSnoc(s.1, e, id);
      assert ConsistentFor(s.0, LogOf(s.1, id), id);
      ConsistentForAfter(relayer, s, call, LogOf(s.1, id), id);
    }
  }

  lemma ConsistentForAfter(relayer: Address, s: State, call: Call, mine: seq<RootUpdated>, id: IssuerId)
    requires ConsistentFor(s.0, mine, id)
    ensures
      var e := RootUpdated(call.issuerId, call.newRoot, call.crlNumber);
      var mine' := if Accepts(relayer, s, call) && call.issuerId == id then mine + [e] else mine;
      ConsistentFor(After(relayer, s, call).0, mine', id)
  {}

  /** Safety over every history of calls, by anybody, from deployment on. */
  lemma {:induction false} HistoryConsistent(relayer: Address, calls: seq<Call>)
    ensures
      var s := AfterAll(relayer, (map[], []), calls);
      Consistent(s.0, s.1)
    decreases |calls|
  {
    if calls == [] {
    } else {
      var front := calls[..|calls| - 1];
      HistoryConsistent(relayer, front);
      ConsistentAfter(relayer, AfterAll(relayer, (map[], []), front), calls[|calls| - 1]);
    }
  }

  ghost function CallsFor(calls: seq<Call>, id: IssuerId): seq<Call> {
    if calls == [] then []
    else
      var front, last := CallsFor(calls[..|calls| - 1], id), calls[|calls| - 1];
      if last.issuerId == id then front + [last] else front
  }

  /** What one issuer sees of two states. */
  ghost predicate SameFor(s: State, t: State, id: IssuerId) {
    InfoOf(s.0, id) == InfoOf(t.0, id) && LogOf(s.1, id) == LogOf(t.1, id)
  }

  lemma StepSameFor(relayer: Address, s: State, t: State, call: Call, id: IssuerId)
    requires SameFor(s, t, id)
    ensures SameFor(After(relayer, s, call), if call.issuerId == id then After(relayer, t, call) else t, id)
  {
    hide LogOf;
    var e := RootUpdated(call.issuerId, call.newRoot, call.crlNumber);
    LogOfSnoc(s.1, e, id);
    LogOfSnoc(t.1, e, id);
  }

  /** Issuers do not interfere: what an issuer reads and emits depends on the calls that name it, only. */
  lemma {:induction false} IssuersIndependent(relayer: Address, s: State, calls: seq<Call>, id: IssuerId)
    ensures SameFor(AfterAll(relayer, s, calls), AfterAll(relayer, s, CallsFor(calls, id)), id)
    decreases |calls|
  {
    hide SameFor, After, LogOf;
    if calls == [] {
      SameForItself(s, id);
    } else {
      var front, call := calls[..|calls| - 1], calls[|calls| - 1];
      IssuersIndependent(relayer, s, front, id);
      var mine := CallsFor(front, id);
      StepSameFor(relayer, AfterAll(relayer, s, front), AfterAll(relayer, s, mine), call, id);
      assert (mine + [call])[..|mine|] == mine;
    }
  }

  lemma SameForItself(s: State, id: IssuerId)
    ensures SameFor(s, s, id)
  {}

  /** The same update is never accepted twice in a row, and number 0 is never accepted. */
  lemma RepeatRejected(relayer: Address, s: State, call: Call, again: Call)
    requires again.issuerId == call.issuerId && again.crlNumber == call.crlNumber
    ensures Accepts(relayer, s, call) ==> !Accepts(relayer, After(relayer, s, call), again)
    ensures call.crlNumber == 0 ==> !Accepts(relayer, s, call)
  {}
}
