/** One call of PostRoot against a chain, in every interleaving: the relayer sends, waits, times out and
    bumps, while miners may include any transaction of the account at any moment, even after the call
    has returned, and anybody may call the registry in between. */
module PostProtocol {
  import opened Wrappers
  import opened Relaying
  import Registry

  /** first is the transaction of the first attempt. Whatever its fees, every transaction of the call makes the
      registry call given, with the timestamp of the block that includes it. */
  datatype Config = Config(first: Tx, ceiling: Option<nat>, maxReplacements: int,
                           relayer: Registry.Address, call: Registry.Call)

  datatype Phase = Ready | Waiting | Returned(result: PostResult)

  /** sent lists the transactions tried, heard what the loop has learned of each so far, and pool holds those that
      a node has taken. mined lists this call's
      transactions in chain order, each with whether it reverted, and own the positions in the registry's
      log of the events that they emitted. */
  datatype State = State(phase: Phase, attempt: nat, sent: seq<Tx>, heard: seq<Reply>, pool: set<Tx>, nextNonce: nat,
                         mined: seq<(Tx, bool)>, reg: Registry.State, own: seq<nat>)

  ghost predicate Init(c: Config, s: State) {
    && FeesSafe(c.first, c.ceiling)
    && s.phase == Ready && s.attempt == 0
    && s.sent == [] && s.heard == [] && s.pool == {} && s.mined == [] && s.own == []
  }

  ghost predicate Send(c: Config, s: State, s': State) {
    && s.phase == Ready
    && var tx := Attempt(c.first, s.attempt);
       s' == s.(phase := Waiting, sent := s.sent + [tx], pool := s.pool + {tx})
  }

  /** The send reports an error: the node refused the transaction, for instance because its nonce has been
      used up meanwhile, or took it and the answer was lost. */
  ghost predicate SendFails(c: Config, s: State, s': State, taken: bool) {
    && s.phase == Ready
    && var tx := Attempt(c.first, s.attempt);
       s' == s.(phase := Returned(SendError), sent := s.sent + [tx], heard := s.heard + [Reply.SendRefused],
                pool := if taken then s.pool + {tx} else s.pool)
  }

  /** A block includes any transaction taken that has the account's next nonce. It can only succeed if the
      registry accepts the call; it may revert for other reasons too, and then leaves no trace there. */
  ghost predicate Mine(c: Config, s: State, s': State, tx: Tx, reverts: bool, timestamp: nat) {
    && tx in s.pool && tx.nonce == s.nextNonce
    && (!reverts ==> Registry.Accepts(c.relayer, s.reg, c.call))
    && s' == s.(nextNonce := s.nextNonce + 1, mined := s.mined + [(tx, reverts)],
                reg := if reverts then s.reg else Registry.After(c.relayer, s.reg, c.call.(timestamp := timestamp)),
                own := if reverts then s.own else s.own + [|s.reg.1|])
  }

  /** A transaction from outside this call is included, of another account or of this one. A plain transfer
      counts as one that reverts: it leaves the registry alone. */
  ghost predicate MineOther(c: Config, s: State, s': State, call: Registry.Call, reverts: bool) {
    s' == s.(nextNonce := if call.sender == c.call.sender then s.nextNonce + 1 else s.nextNonce,
             reg := if reverts then s.reg else Registry.After(c.relayer, s.reg, call))
  }

  /** The receipt awaited is that of the last transaction sent, and says how that one was mined. */
  ghost predicate Receipt(s: State, s': State, success: bool, elapsed: nat) {
    && s.phase == Waiting && s.sent != []
    && (s.sent[|s.sent| - 1], !success) in s.mined
    && s' == s.(phase := Returned(if success then Confirmed else Reverted), heard := s.heard + [Mined(success, elapsed)])
  }

  ghost predicate Timeout(c: Config, s: State, s': State, elapsed: nat) {
    && s.phase == Waiting
    && var now := s.(heard := s.heard + [NoReceipt(false, elapsed)]);
       s' ==
       if s.attempt >= c.maxReplacements then now.(phase := Returned(NotConfirmed))
       else if !UnderCeiling(Attempt(c.first, s.attempt + 1).feeCap, c.ceiling) then
         now.(phase := Returned(StuckAtCeiling))
       else now.(phase := Ready, attempt := s.attempt + 1)
  }

  ghost predicate Cancel(s: State, s': State, elapsed: nat) {
    && s.phase == Waiting
    && s' == s.(phase := Returned(ContextDone), heard := s.heard + [NoReceipt(true, elapsed)])
  }

  /** A step of the sending loop; the chain does not move. */
  ghost predicate LoopStep(c: Config, s: State, s': State) {
    || Send(c, s, s')
    || (exists taken :: SendFails(c, s, s', taken))
    || (exists success, elapsed: nat :: Receipt(s, s', success, elapsed))
    || (exists elapsed: nat :: Timeout(c, s, s', elapsed))
    || (exists elapsed: nat :: Cancel(s, s', elapsed))
  }

  /** A step of the chain; the loop does not move. */
  ghost predicate ChainStep(c: Config, s: State, s': State) {
    || (exists tx, reverts, timestamp: nat :: Mine(c, s, s', tx, reverts, timestamp))
    || (exists call, reverts :: MineOther(c, s, s', call, reverts))
  }

  ghost predicate Next(c: Config, s: State, s': State) {
    LoopStep(c, s, s') || ChainStep(c, s, s')
  }

  ghost predicate IsPath(c: Config, path: seq<State>) {
    path != [] && forall i :: 0 <= i < |path| - 1 ==> Next(c, path[i], path[i + 1])
  }

  ghost predicate IsRun(c: Config, run: seq<State>) {
    IsPath(c, run) && Init(c, run[0])
  }

  ghost function Last(path: seq<State>): State
    requires path != []
  {
    path[|path| - 1]
  }

  // ------------------------------------------------------------------- safety

  /** Another attempt may follow attempt i. */
  ghost predicate MayRetry(c: Config, i: nat) {
    i < c.maxReplacements && UnderCeiling(Attempt(c.first, i + 1).feeCap, c.ceiling)
  }

  ghost predicate LoopInv(c: Config, s: State) {
    && FeesSafe(c.first, c.ceiling)
    && |s.sent| == s.attempt + (if s.phase.Ready? then 0 else 1)
    && (forall i :: 0 <= i < |s.sent| ==> s.sent[i] == Attempt(c.first, i))
    && (forall i :: 0 <= i < s.attempt ==> MayRetry(c, i))
    && |s.heard| == s.attempt + (if s.phase.Returned? then 1 else 0)
    && (forall i :: 0 <= i < s.attempt ==> s.heard[i].NoReceipt? && !s.heard[i].contextDone)
    && (s.phase.Returned? ==>
          var last := s.heard[s.attempt];
          && !(last.NoReceipt? && !last.contextDone && MayRetry(c, s.attempt))
          && s.phase.result == ResultOf(c.maxReplacements, last, s.attempt))
  }

  ghost function EventOf(call: Registry.Call): Registry.RootUpdated {
    Registry.RootUpdated(call.issuerId, call.newRoot, call.crlNumber)
  }

  /** The registry serves the call's root, or one with a higher number. */
  ghost predicate Serves(reg: Registry.State, call: Registry.Call) {
    var info := Registry.InfoOf(reg.0, call.issuerId);
    info.crlNumber > call.crlNumber || (info.crlNumber == call.crlNumber && info.root == call.newRoot)
  }

  /** There is a state in which the registry accepts the call. */
  ghost predicate Acceptable(c: Config) {
    c.call.sender == c.relayer && c.call.crlNumber > 0
  }

  ghost predicate ChainInv(c: Config, s: State) {
    && (forall tx :: tx in s.pool ==> tx in s.sent && tx.nonce == c.first.nonce)
    && |s.mined| <= 1
    && (s.mined != [] ==> s.mined[0].0 in s.pool && s.nextNonce > c.first.nonce)
    && |s.own| == (if s.mined != [] && !s.mined[0].1 then 1 else 0)
    && (s.own != [] ==> s.own[0] < |s.reg.1| && s.reg.1[s.own[0]] == EventOf(c.call) && Serves(s.reg, c.call))
    && (s.own != [] ==> Acceptable(c))
    && (s.phase == Returned(Confirmed) ==> s.own != [])
    && (s.phase == Returned(Reverted) ==> s.mined != [] && s.own == [])
    && (forall i, success, elapsed :: 0 <= i < |s.heard| && s.heard[i] == Mined(success, elapsed) ==>
          i < |s.sent| && s.mined == [(s.sent[i], !success)])
  }

  /** The log is only appended to, numbers never fall, and a root served stays served until a higher number. */
  lemma RegistryMoves(relayer: Registry.Address, reg: Registry.State, other: Registry.Call, call: Registry.Call)
    ensures
      var reg' := Registry.After(relayer, reg, other);
      && reg.1 <= reg'.1
      && (Serves(reg, call) ==> Serves(reg', call))
      && (Registry.Accepts(relayer, reg', call) ==> Registry.Accepts(relayer, reg, call))
  {}

  lemma SendKeepsLoopInv(c: Config, s: State, s': State, taken: bool)
    requires LoopInv(c, s) && (Send(c, s, s') || SendFails(c, s, s', taken))
    ensures LoopInv(c, s')
  {
    hide Attempt, Bump, UnderCeiling, MayRetry;
  }

  lemma ReceiptKeepsLoopInv(c: Config, s: State, s': State, success: bool, elapsed: nat)
    requires LoopInv(c, s) && Receipt(s, s', success, elapsed)
    ensures LoopInv(c, s')
  {
    hide Attempt, Bump, UnderCeiling, MayRetry;
  }

  lemma EndOfWaitKeepsLoopInv(c: Config, s: State, s': State, elapsed: nat)
    requires LoopInv(c, s) && (Timeout(c, s, s', elapsed) || Cancel(s, s', elapsed))
    ensures LoopInv(c, s')
  {
    hide Attempt, Bump, UnderCeiling;
  }

  lemma SendKeepsChainInv(c: Config, s: State, s': State, taken: bool)
    requires LoopInv(c, s) && ChainInv(c, s) && (Send(c, s, s') || SendFails(c, s, s', taken))
    ensures ChainInv(c, s')
  {
    hide Attempt, Bump, Serves, MayRetry, UnderCeiling, Acceptable, EventOf, ResultOf;
    AttemptsOrdered(c.first, s.attempt);
  }

  lemma ReceiptKeepsChainInv(c: Config, s: State, s': State, success: bool, elapsed: nat)
    requires LoopInv(c, s) && ChainInv(c, s) && Receipt(s, s', success, elapsed)
    ensures ChainInv(c, s')
  {
    hide Attempt, Bump, Serves, MayRetry, UnderCeiling, Acceptable, EventOf, ResultOf;
  }

  lemma EndOfWaitKeepsChainInv(c: Config, s: State, s': State, elapsed: nat)
    requires ChainInv(c, s) && (Timeout(c, s, s', elapsed) || Cancel(s, s', elapsed))
    ensures ChainInv(c, s')
  {
    hide Attempt, Bump, Serves, UnderCeiling, Acceptable, EventOf;
  }

  lemma LoopStepKeepsInv(c: Config, s: State, s': State)
    requires LoopInv(c, s) && ChainInv(c, s) && LoopStep(c, s, s')
    ensures LoopInv(c, s') && ChainInv(c, s') && s'.reg == s.reg && s'.own == s.own
  {
    hide Attempt, Bump, LoopInv, ChainInv;
    if Send(c, s, s') {
      SendKeepsLoopInv(c, s, s', true);
      SendKeepsChainInv(c, s, s', true);
    } else if taken :| SendFails(c, s, s', taken) {
      SendKeepsLoopInv(c, s, s', taken);
      SendKeepsChainInv(c, s, s', taken);
    } else if success, elapsed: nat :| Receipt(s, s', success, elapsed) {
      ReceiptKeepsLoopInv(c, s, s', success, elapsed);
      ReceiptKeepsChainInv(c, s, s', success, elapsed);
    } else {
      var elapsed: nat :| Timeout(c, s, s', elapsed) || Cancel(s, s', elapsed);
      EndOfWaitKeepsLoopInv(c, s, s', elapsed);
      EndOfWaitKeepsChainInv(c, s, s', elapsed);
    }
  }

  lemma ChainStepKeepsChainInv(c: Config, s: State, s': State)
    requires ChainInv(c, s) && ChainStep(c, s, s')
    ensures ChainInv(c, s')
    ensures s.reg.1 <= s'.reg.1
    ensures s'.own == s.own || (s.own == [] && s'.own == [|s.reg.1|])
  {
    if call, reverts :| MineOther(c, s, s', call, reverts) {
      RegistryMoves(c.relayer, s.reg, call, c.call);
    }
  }

  lemma ChainStepKeepsLoopInv(c: Config, s: State, s': State)
    requires LoopInv(c, s) && ChainStep(c, s, s')
    ensures LoopInv(c, s')
  {
    hide Attempt, Bump, MayRetry;
  }

  lemma NextKeepsInv(c: Config, s: State, s': State)
    requires LoopInv(c, s) && ChainInv(c, s) && Next(c, s, s')
    ensures LoopInv(c, s') && ChainInv(c, s')
    ensures s.reg.1 <= s'.reg.1
    ensures s'.own == s.own || (s.own == [] && s'.own == [|s.reg.1|])
  {
    hide LoopInv, ChainInv, LoopStep, ChainStep;
    if LoopStep(c, s, s') {
      LoopStepKeepsInv(c, s, s');
    } else {
      ChainStepKeepsLoopInv(c, s, s');
      ChainStepKeepsChainInv(c, s, s');
    }
  }

  lemma {:induction false} RunKeepsInv(c: Config, run: seq<State>, n: nat)
    requires IsRun(c, run) && n < |run|
    ensures LoopInv(c, run[n]) && ChainInv(c, run[n])
    ensures run[0].reg.1 <= run[n].reg.1
    ensures forall i :: 0 <= i < |run[n].own| ==> |run[0].reg.1| <= run[n].own[i]
    decreases n
  {
    hide Attempt, Bump, Next, MayRetry;
    AttemptZero(c.first);
    if n == 0 {
    } else {
      hide LoopInv, ChainInv;
      RunKeepsInv(c, run, n - 1);
      NextKeepsInv(c, run[n - 1], run[n - 1 + 1]);
    }
  }

  lemma LoopInvSendsSafely(c: Config, s: State)
    requires LoopInv(c, s)
    ensures SentSafely(c.ceiling, c.maxReplacements, s.sent)
    ensures forall tx :: tx in s.sent ==> tx.nonce == c.first.nonce
  {
    hide Attempt, Bump, Replaces;
    AttemptZero(c.first);
    AttemptsAreLegal(c.first, s.sent);
    forall i | 0 <= i < |s.sent|
      ensures FeesSafe(s.sent[i], c.ceiling)
    {
      AttemptsOrdered(c.first, i);
      assert i > 0 ==> MayRetry(c, i - 1);
    }
    if |s.sent| > 1 {
      assert MayRetry(c, |s.sent| - 2);
    }
  }

  /** In every reachable state: sends are bounded in number, with the one pinned nonce, safe and growing
      fees; the call has added at most one event to the registry's log, and this event is its own; a
      reported confirmation means that it has, a reported revert that it has not, and a receipt heard of is how the
      transaction was mined; and once it has, the
      registry serves its root or one with a higher number. */
  lemma RunSafe(c: Config, run: seq<State>, n: nat)
    requires IsRun(c, run) && n < |run|
    ensures
      var s := run[n];
      && SentSafely(c.ceiling, c.maxReplacements, s.sent)
      && (forall tx :: tx in s.sent ==> tx.nonce == c.first.nonce)
      && |s.mined| <= 1 && |s.own| <= 1 && run[0].reg.1 <= s.reg.1
      && (s.own != [] ==>
            && |run[0].reg.1| <= s.own[0] < |s.reg.1|
            && s.reg.1[s.own[0]] == EventOf(c.call) && Serves(s.reg, c.call))
      && (s.phase == Returned(Confirmed) ==> s.own != [])
      && (s.phase == Returned(Reverted) ==> s.own == [])
      && (forall i, success, elapsed :: 0 <= i < |s.heard| && s.heard[i] == Mined(success, elapsed) ==>
            i < |s.sent| && s.mined == [(s.sent[i], !success)] && (success <==> s.own != []))
  {
    hide Attempt, Bump, Serves, SentSafely, Next;
    RunKeepsInv(c, run, n);
    LoopInvSendsSafely(c, run[n]);
  }

  /** If nobody else updates the registry meanwhile, the call has the effect of one setRoot or none at all. */
  lemma {:induction false} AtMostOneUpdate(c: Config, run: seq<State>, n: nat) returns (timestamp: nat)
    requires IsRun(c, run) && n < |run|
    requires forall i :: 0 <= i < n && run[i].reg != run[i + 1].reg ==> run[i].own != run[i + 1].own
    ensures run[n].reg == if run[n].own == [] then run[0].reg
                          else Registry.After(c.relayer, run[0].reg, c.call.(timestamp := timestamp))
    decreases n
  {
    hide Attempt, Bump, Next, ChainInv, LoopInv, Registry.After;
    timestamp := 0;
    if n == 0 {
    } else {
      timestamp := AtMostOneUpdate(c, run, n - 1);
      RunKeepsInv(c, run, n - 1);
      assert Next(c, run[n - 1], run[n - 1 + 1]);
      NextKeepsInv(c, run[n - 1], run[n]);
      if run[n].own != run[n - 1].own {
        timestamp := OwnStep(c, run[n - 1], run[n]);
      }
    }
  }

  lemma OwnStep(c: Config, s: State, s': State) returns (timestamp: nat)
    requires Next(c, s, s') && s'.own != s.own
    ensures s'.reg == Registry.After(c.relayer, s.reg, c.call.(timestamp := timestamp))
  {
    hide Attempt, Bump, UnderCeiling, Registry.After, Registry.Accepts;
    var tx, reverts, t: nat :| Mine(c, s, s', tx, reverts, t);
    timestamp := t;
  }

  // -------------------------------------------------- when posting is ruled out

  /** Whatever happens from here on, the call adds no event. */
  ghost predicate NeverPosts(c: Config, s: State) {
    forall path :: IsPath(c, path) && path[0] == s ==> Last(path).own == []
  }

  /** What can be read off the chain once the call has returned. */
  ghost predicate Blocked(c: Config, s: State) {
    && s.own == []
    && (s.pool == {} || s.nextNonce > c.first.nonce || !Registry.Accepts(c.relayer, s.reg, c.call))
  }

  lemma NextKeepsBlocked(c: Config, s: State, s': State)
    requires LoopInv(c, s) && ChainInv(c, s) && Next(c, s, s')
    requires s.phase.Returned? && Blocked(c, s)
    ensures s'.phase.Returned? && Blocked(c, s')
  {
    hide Attempt, Bump, LoopInv, Serves;
    if call, reverts :| MineOther(c, s, s', call, reverts) {
      RegistryMoves(c.relayer, s.reg, call, c.call);
    }
  }

  lemma {:induction false} PathKeepsBlocked(c: Config, path: seq<State>, n: nat)
    requires IsPath(c, path) && n < |path|
    requires LoopInv(c, path[0]) && ChainInv(c, path[0]) && path[0].phase.Returned? && Blocked(c, path[0])
    ensures LoopInv(c, path[n]) && ChainInv(c, path[n]) && path[n].phase.Returned? && Blocked(c, path[n])
    decreases n
  {
    hide LoopInv, ChainInv, Blocked, Next;
    if n == 0 {
    } else {
      PathKeepsBlocked(c, path, n - 1);
      assert Next(c, path[n - 1], path[n - 1 + 1]);
      NextKeepsInv(c, path[n - 1], path[n]);
      NextKeepsBlocked(c, path[n - 1], path[n]);
    }
  }

  lemma Extend(c: Config, path: seq<State>, s: State) returns (longer: seq<State>)
    requires IsPath(c, path) && Next(c, Last(path), s)
    ensures IsPath(c, longer) && longer[0] == path[0] && Last(longer) == s
    ensures longer == path + [s]
  {
    hide Next;
    longer := path + [s];
    forall i | 0 <= i < |longer| - 1
      ensures Next(c, longer[i], longer[i + 1])
    {
      if i < |path| - 1 {
        assert Next(c, path[i], path[i + 1]);
      }
    }
  }

  lemma StepIsNext(c: Config, s: State, s': State, flag: bool, elapsed: nat, tx: Tx)
    requires || Send(c, s, s') || SendFails(c, s, s', flag) || Receipt(s, s', flag, elapsed)
             || Timeout(c, s, s', elapsed) || Cancel(s, s', elapsed)
             || Mine(c, s, s', tx, flag, 0) || MineOther(c, s, s', c.call, flag)
    ensures Next(c, s, s')
  {
    hide Attempt, Bump, Send, SendFails, Receipt, Timeout, Cancel, Mine, MineOther;
  }

  /** Other transactions of the account use up the nonces before this call's. */
  lemma {:induction false} ReachNonce(c: Config, s: State) returns (path: seq<State>)
    requires s.nextNonce <= c.first.nonce
    ensures IsPath(c, path) && path[0] == s && Last(path) == s.(nextNonce := c.first.nonce)
    decreases c.first.nonce - s.nextNonce
  {
    hide Next;
    path := [s];
    if s.nextNonce == c.first.nonce {
    } else {
      var before := ReachNonce(c, s.(nextNonce := s.nextNonce + 1));
      path := [s] + before;
      StepIsNext(c, s, before[0], true, 0, c.first);
      forall i | 0 <= i < |path| - 1
        ensures Next(c, path[i], path[i + 1])
      {
        assert i > 0 ==> Next(c, before[i - 1], before[i - 1 + 1]);
      }
    }
  }

  /** A transaction that a node has taken can still be included, and succeed. */
  lemma PostLater(c: Config, s: State) returns (path: seq<State>)
    requires ChainInv(c, s) && s.own == [] && !Blocked(c, s)
    ensures IsPath(c, path) && path[0] == s
    ensures Last(path).own == [|s.reg.1|] && Last(path).phase == s.phase
    ensures Last(path).sent == s.sent && Last(path).heard == s.heard
  {
    hide IsPath, Next, Registry.Accepts, Serves;
    path := ReachNonce(c, s);
    var tx :| tx in s.pool;
    var s1 := s.(nextNonce := c.first.nonce);
    var s2 := s1.(nextNonce := s1.nextNonce + 1, mined := s1.mined + [(tx, false)],
                  reg := Registry.After(c.relayer, s1.reg, c.call.(timestamp := 0)), own := s1.own + [|s1.reg.1|]);
    StepIsNext(c, s1, s2, false, 0, tx);
    path := Extend(c, path, s2);
  }

  /** Once the call has returned, posting is ruled out for good exactly when it has not happened and either
      no node took a transaction, or the account's nonce has passed the pinned one, or the registry would
      not accept the call now. */
  lemma PostingRuledOut(c: Config, run: seq<State>)
    requires IsRun(c, run) && Last(run).phase.Returned?
    ensures NeverPosts(c, Last(run)) <==> Blocked(c, Last(run))
  {
    hide LoopInv, ChainInv, Next, Registry.Accepts;
    var s := Last(run);
    RunKeepsInv(c, run, |run| - 1);
    if Blocked(c, s) {
      forall path | IsPath(c, path) && path[0] == s
        ensures Last(path).own == []
      {
        PathKeepsBlocked(c, path, |path| - 1);
      }
    } else if s.own == [] {
      var path := PostLater(c, s);
      assert Last(path).own != [];
    } else {
      assert IsPath(c, [s]) && Last([s]).own != [];
    }
  }

  // --------------------------------------------------- runs and calls of the loop

  /** The first n transactions of the call. */
  ghost function Attempts(c: Config, n: nat): seq<Tx> {
    seq(n, i requires 0 <= i => Attempt(c.first, i))
  }

  /** The first n replies. */
  ghost function Replied(replies: nat -> Reply, n: nat): seq<Reply> {
    seq(n, i requires 0 <= i => replies(i))
  }

  /** A state of an undisturbed run before attempt i. */
  ghost function ReadyAt(c: Config, reg: Registry.State, replies: nat -> Reply, i: nat): State {
    State(Ready, i, Attempts(c, i), Replied(replies, i), (set tx | tx in Attempts(c, i)), c.first.nonce, [], reg, [])
  }

  ghost function SentAt(c: Config, reg: Registry.State, replies: nat -> Reply, i: nat): State {
    ReadyAt(c, reg, replies, i + 1).(phase := Waiting, attempt := i, heard := Replied(replies, i))
  }

  lemma SendAt(c: Config, reg: Registry.State, replies: nat -> Reply, i: nat)
    ensures Send(c, ReadyAt(c, reg, replies, i), SentAt(c, reg, replies, i))
    ensures Attempts(c, i + 1) == Attempts(c, i) + [Attempt(c.first, i)]
    ensures Replied(replies, i + 1) == Replied(replies, i) + [replies(i)]
  {
    hide Attempt, Bump;
    assert Attempts(c, i + 1) == Attempts(c, i) + [Attempt(c.first, i)];
  }

  lemma NothingYet(c: Config, reg: Registry.State, replies: nat -> Reply)
    ensures
      var s := ReadyAt(c, reg, replies, 0);
      s.sent == [] && s.heard == [] && s.pool == {}
  {}

  lemma {:induction false} ReachReady(c: Config, reg: Registry.State, replies: nat -> Reply, i: nat)
      returns (run: seq<State>)
    requires FeesSafe(c.first, c.ceiling)
    requires forall j :: 0 <= j < i ==> MayRetry(c, j)
    requires forall j :: 0 <= j < i ==> replies(j).NoReceipt? && !replies(j).contextDone
    ensures IsRun(c, run) && Last(run) == ReadyAt(c, reg, replies, i)
  {
    hide Attempt, Bump, Attempts, Replied, FeesSafe, LoopStep, ChainStep, IsPath;
    if i == 0 {
      run := FirstState(c, reg, replies);
    } else {
      run := ReachReady(c, reg, replies, i - 1);
      SendAt(c, reg, replies, i - 1);
      var s, s' := SentAt(c, reg, replies, i - 1), ReadyAt(c, reg, replies, i);
      StepIsNext(c, ReadyAt(c, reg, replies, i - 1), s, true, 0, c.first);
      run := Extend(c, run, s);
      assert MayRetry(c, i - 1);
      assert replies(i - 1) == NoReceipt(false, replies(i - 1).elapsed);
      StepIsNext(c, s, s', true, replies(i - 1).elapsed, c.first);
      run := Extend(c, run, s');
    }
  }

  lemma FirstState(c: Config, reg: Registry.State, replies: nat -> Reply) returns (run: seq<State>)
    requires FeesSafe(c.first, c.ceiling)
    ensures IsRun(c, run) && Last(run) == ReadyAt(c, reg, replies, 0)
  {
    hide FeesSafe;
    NothingYet(c, reg, replies);
    run := [ReadyAt(c, reg, replies, 0)];
  }

  /** The run ends with the call returned, these transactions tried, these replies heard and this result. */
  ghost predicate Ends(c: Config, run: seq<State>, replies: nat -> Reply, sent: seq<Tx>, result: PostResult) {
    && IsRun(c, run) && Last(run).phase == Returned(result)
    && Last(run).sent == sent && Last(run).heard == Replied(replies, |sent|)
  }

  ghost predicate CallOf(c: Config, replies: nat -> Reply, sent: seq<Tx>, result: PostResult) {
    IsCall(c.ceiling, c.maxReplacements, c.first, replies, sent, result)
  }

  /** What a call's shape says of its attempts. */
  lemma CallShape(c: Config, replies: nat -> Reply, sent: seq<Tx>, result: PostResult)
    requires CallOf(c, replies, sent, result)
    ensures sent != [] && sent == Attempts(c, |sent|)
    ensures forall j :: 0 <= j < |sent| - 1 ==> MayRetry(c, j)
    ensures forall j :: 0 <= j < |sent| - 1 ==> replies(j).NoReceipt? && !replies(j).contextDone
    ensures
      var last := replies(|sent| - 1);
      && result == ResultOf(c.maxReplacements, last, |sent| - 1)
      && !(last.NoReceipt? && !last.contextDone && MayRetry(c, |sent| - 1))
  {
    hide Attempt, Bump, UnderCeiling;
    forall j | 0 <= j < |sent| - 1
      ensures MayRetry(c, j)
    {
      assert Retries(c.ceiling, c.maxReplacements, c.first, replies(j), j);
    }
  }

  /** The last transaction sent is mined. */
  lemma MineLast(c: Config, reg: Registry.State, replies: nat -> Reply, i: nat, success: bool) returns (s: State)
    requires FeesSafe(c.first, c.ceiling) && reg == (map[], [])
    requires success ==> Acceptable(c)
    ensures
      var before := SentAt(c, reg, replies, i);
      && Mine(c, before, s, before.sent[i], !success, 0)
      && s.phase == Waiting && s.sent == before.sent && s.heard == before.heard
      && s.mined == [(s.sent[i], !success)] && (s.own != [] <==> success)
  {
    hide Attempt, Bump, UnderCeiling, Replied;
    var before := SentAt(c, reg, replies, i);
    var tx := before.sent[i];
    AttemptsOrdered(c.first, i);
    s := before.(nextNonce := before.nextNonce + 1, mined := before.mined + [(tx, !success)],
                 reg := if success then Registry.After(c.relayer, reg, c.call.(timestamp := 0)) else reg,
                 own := if success then [] + [|reg.1|] else []);
  }

  /** For every call of the loop there is a run with the same replies, sends and result. Unless it reports a
      confirmation, nothing has been posted by then, and unless it reports a receipt, it still can be. */
  lemma RunOfCall(c: Config, replies: nat -> Reply, sent: seq<Tx>, result: PostResult) returns (run: seq<State>)
    requires FeesSafe(c.first, c.ceiling) && CallOf(c, replies, sent, result)
    requires result == Confirmed ==> Acceptable(c)
    ensures Ends(c, run, replies, sent, result)
    ensures result != Confirmed <==> Last(run).own == []
    ensures result != Confirmed && result != Reverted && Acceptable(c) ==> !Blocked(c, Last(run))
  {
    hide CallOf, Attempt, Bump, Attempts, Replied, FeesSafe, IsPath, Next, LoopStep, ChainStep;
    CallShape(c, replies, sent, result);
    var i := |sent| - 1;
    var reg: Registry.State := (map[], []);
    run := ReachReady(c, reg, replies, i);
    SendAt(c, reg, replies, i);
    var s, last := SentAt(c, reg, replies, i), replies(i);
    if last.SendRefused? {
      var s' := s.(phase := Returned(SendError), heard := Replied(replies, i + 1));
      StepIsNext(c, ReadyAt(c, reg, replies, i), s', true, 0, c.first);
      run := Extend(c, run, s');
      return;
    }
    StepIsNext(c, ReadyAt(c, reg, replies, i), s, true, 0, c.first);
    run := Extend(c, run, s);
    if last.Mined? {
      var s1 := MineLast(c, reg, replies, i, last.success);
      StepIsNext(c, s, s1, !last.success, 0, s.sent[i]);
      run := Extend(c, run, s1);
      s := s1;
    }
    var s' := s.(phase := Returned(result), heard := Replied(replies, i + 1));
    LastStep(c, s, s', last);
    run := Extend(c, run, s');
  }

  /** What the reply to the last transaction does. */
  lemma LastStep(c: Config, s: State, s': State, last: Reply)
    requires s.phase == Waiting && s.sent != [] && !last.SendRefused?
    requires last.Mined? ==> s.mined == [(s.sent[|s.sent| - 1], !last.success)]
    requires !(last.NoReceipt? && !last.contextDone && MayRetry(c, s.attempt))
    requires s' == s.(phase := Returned(ResultOf(c.maxReplacements, last, s.attempt)), heard := s.heard + [last])
    ensures Next(c, s, s')
  {
    hide Attempt, Bump, UnderCeiling, LoopStep, ChainStep;
    match last
    case Mined(success, elapsed) =>
      StepIsNext(c, s, s', success, elapsed, c.first);
    case NoReceipt(contextDone, elapsed) =>
      assert contextDone ==> Cancel(s, s', elapsed);
      assert !contextDone ==> Timeout(c, s, s', elapsed);
      StepIsNext(c, s, s', true, elapsed, c.first);
  }

  /** And every run that has returned is a call of the loop, for the very replies heard in the run. */
  lemma CallOfRun(c: Config, run: seq<State>, replies: nat -> Reply)
    requires IsRun(c, run) && Last(run).phase.Returned?
    requires Last(run).heard == Replied(replies, |Last(run).sent|)
    ensures CallOf(c, replies, Last(run).sent, Last(run).phase.result)
    ensures Last(run).phase.result == Confirmed ==> Acceptable(c)
  {
    hide Attempt, Bump, Next, UnderCeiling, Serves;
    RunKeepsInv(c, run, |run| - 1);
    var s := Last(run);
    forall i | 0 <= i < |s.sent|
      ensures replies(i) == s.heard[i]
    {}
    forall i | 0 <= i < |s.sent| - 1
      ensures Retries(c.ceiling, c.maxReplacements, c.first, replies(i), i)
    {
      assert MayRetry(c, i);
    }
  }

  /** The loop and the state machine agree: for all replies, a sequence of sends and a result are those of the loop
      exactly when some run hears these replies and ends so. A confirmation also takes a registry that can
      accept the call. */
  lemma RunsAreCalls(c: Config, replies: nat -> Reply, sent: seq<Tx>, result: PostResult)
    requires FeesSafe(c.first, c.ceiling)
    ensures (exists run :: Ends(c, run, replies, sent, result))
            <==> (result == Confirmed ==> Acceptable(c)) && CallOf(c, replies, sent, result)
  {
    hide CallOf, FeesSafe, IsRun, Acceptable, Replied;
    if run :| Ends(c, run, replies, sent, result) {
      EndsReturned(c, run, replies, sent, result);
      CallOfRun(c, run, replies);
    }
    if (result == Confirmed ==> Acceptable(c)) && CallOf(c, replies, sent, result) {
      var run := RunOfCall(c, replies, sent, result);
      assert Ends(c, run, replies, sent, result);
    }
  }

  lemma EndsReturned(c: Config, run: seq<State>, replies: nat -> Reply, sent: seq<Tx>, result: PostResult)
    requires Ends(c, run, replies, sent, result)
    ensures run != [] && Last(run).phase.Returned?
  {}

  /** Whatever the call does meanwhile, anybody can call the registry next. */
  lemma AnybodyMayCall(c: Config, s: State, call: Registry.Call) returns (s': State)
    ensures Next(c, s, s') && s'.reg == Registry.After(c.relayer, s.reg, call) && s'.phase == s.phase
  {
    hide LoopStep, Registry.After;
    s' := s.(nextNonce := if call.sender == c.call.sender then s.nextNonce + 1 else s.nextNonce,
             reg := Registry.After(c.relayer, s.reg, call));
    assert MineOther(c, s, s', call, false);
  }

  lemma Join(c: Config, run: seq<State>, path: seq<State>) returns (whole: seq<State>)
    requires IsRun(c, run) && IsPath(c, path) && path[0] == Last(run)
    ensures IsRun(c, whole) && Last(whole) == Last(path)
  {
    hide Next, Init;
    whole := run + path[1..];
    forall i | 0 <= i < |whole| - 1
      ensures Next(c, whole[i], whole[i + 1])
    {
      if i < |run| - 1 {
        assert Next(c, run[i], run[i + 1]);
      } else {
        var j := i - (|run| - 1);
        assert whole[i] == path[j] && whole[i + 1] == path[j + 1];
        assert Next(c, path[j], path[j + 1]);
      }
    }
  }

  /** Only a reported revert rules posting out by itself. Every other error can be returned, after whatever
      replies and sends it comes with, although the root was posted, or is posted later. */
  lemma ErrorDespitePosting(c: Config, replies: nat -> Reply, sent: seq<Tx>, result: PostResult)
    requires FeesSafe(c.first, c.ceiling) && CallOf(c, replies, sent, result) && Acceptable(c)
    ensures (exists run :: Ends(c, run, replies, sent, result) && Last(run).own != []) <==> result != Reverted
  {
    hide CallOf, FeesSafe, LoopInv, Blocked, Next, Init;
    if result == Reverted {
      forall run | Ends(c, run, replies, sent, result)
        ensures Last(run).own == []
      {
        RunKeepsInv(c, run, |run| - 1);
      }
    } else {
      var run := RunOfCall(c, replies, sent, result);
      if result != Confirmed {
        RunKeepsInv(c, run, |run| - 1);
        var path := PostLater(c, Last(run));
        run := Join(c, run, path);
      }
      assert Ends(c, run, replies, sent, result) && Last(run).own != [];
    }
  }
}
