/** When a proposer can build a block, and how far syncing blocks move the relay. */
module Liveness {
  import opened Base
  import opened TxWire
  import opened MsgIndexes
  import opened Selection
  import opened Events
  import opened Proposals
  import opened ProposalTheorems
  import opened Relay

  /** No event stops block production at the sequence its position gives it. */
  ghost predicate NoneHalts(c: Ctx, height: nat, answer: Answer)
    requires Validated(c)
  {
    !exists i :: 0 <= i < |answer.events| && Halting(c.env, c.params, answer.events[i], Seqs(c, height).firstEvent + i)
  }

  ghost predicate StateFound(c: Ctx) {
    c.blocked.Some? && c.st.lastSynced.Some? && c.st.offset.Some?
  }

  lemma {:induction false} GeneratedIff(env: Env, params: Params, blocked: set<string>, answer: Answer, block: nat, first: nat)
    requires Faithful(env)
    ensures var g := Generated(env, params, blocked, answer, block, first);
            && (g.None? <==> exists i :: 0 <= i < |answer.events| && Halting(env, params, answer.events[i], first + i))
            && (g.Some? ==> |g.value.txs| == |answer.events|)
  {
    hide Faithful, Halting, Translate, TranslateOne;
    HaltsIffSomeEventHalts(env, params, blocked, answer.events, block, first);
    var txs := Translate(env, params, blocked, answer.events, block, first);
    if txs.Some? {
      TranslatePointwise(env, params, blocked, answer.events, block, first, txs.value);
    }
  }

  /** Generation succeeds iff no event halts it and the events already processed are not all there are. */
  lemma {:induction false} PendingIff(c: Ctx, height: nat, answer: Answer)
    requires WellFormed(c)
    ensures Pending(c, height, answer).Some? <==>
            StateFound(c) && NoneHalts(c, height, answer) && (c.st.offset.value == 0 || c.st.offset.value < |answer.events|)
  {
    hide Faithful, WellFormed, Validated, Halting, Seqs, Generated;
    WellFormedIsFaithful(c);
    if StateFound(c) {
      GeneratedIff(c.env, c.params, c.blocked.value, answer, c.st.lastSynced.value + 1, Seqs(c, height).firstEvent);
    }
  }

  /** What a plan needs of the block space: MsgIndex fits, and so does the next event if there is one. */
  ghost predicate Roomy(pending: Plan, sequence: nat, budget: nat) {
    var index := TxSize(IndexTx(pending.msg, sequence));
    && index <= budget
    && (pending.txs != [] ==> index + TxSize(pending.txs[0]) <= budget)
  }

  lemma {:induction false} FittedIff(pending: Plan, sequence: nat, budget: nat)
    ensures Fitted(pending.msg, pending.txs, budget, sequence).Some? <==> Roomy(pending, sequence, budget)
  {
    hide IndexTx, TxSize;
    var index := TxSize(IndexTx(pending.msg, sequence));
    if index <= budget && pending.txs != [] {
      assert FitCount(pending.txs, budget - index) > 0 <==> TxSize(pending.txs[0]) <= budget - index;
    }
  }

  /**
   * A proposer can plan a block iff the state is there, MsgSupplyDelta fits, no event halts production,
   * some event is left of a half-consumed Ethereum block, and MsgIndex and the next event fit in the
   * bytes that native transactions leave.
   */
  lemma {:induction false} PlansIff(c: Ctx, height: nat, native: seq<bytes>, maxTxBytes: nat, answer: Answer)
    requires WellFormed(c)
    ensures Planned(c, height, native, maxTxBytes, answer).Some? <==>
            && StateFound(c)
            && TxsSize(SupplyTxs(c, height)) <= maxTxBytes
            && NoneHalts(c, height, answer)
            && (c.st.offset.value == 0 || c.st.offset.value < |answer.events|)
            && (Pending(c, height, answer).Some? ==>
                  Roomy(Pending(c, height, answer).value, Seqs(c, height).index, BudgetOf(c, height, native, maxTxBytes)))
  {
    WellFormedIsFaithful(c);
    PendingIff(c, height, answer);
    hide WellFormed, Pending, Seqs, SupplyTxs, TxsSize, NoneHalts, Fitted, Roomy, EventBudget, StateFound;
    var p := Pending(c, height, answer);
    if p.Some? && TxsSize(SupplyTxs(c, height)) <= maxTxBytes {
      FittedIff(p.value, Seqs(c, height).index, BudgetOf(c, height, native, maxTxBytes));
    }
  }

  lemma ValidGas(c: Ctx)
    requires Validated(c)
    ensures -0x8000_0000_0000_0000 <= c.maxGas < 0x8000_0000_0000_0000 && (c.maxGas == 0 || GasWord(c.maxGas) > 0)
  {
  }

  lemma NothingIsFree(decode: Decoder)
    ensures TxsSize([]) == 0 && GasSum([], decode) == 0 && Decodable([], decode)
  {
  }

  /** The block does not sync with Ethereum, at a time when that is still permitted. */
  ghost predicate Idles(c: Ctx, time: int, txs: seq<bytes>) {
    txs != [] && ReadIndex(c.env, txs[0]).Some? && ReadIndex(c.env, txs[0]).value.NoSync() && !DelayExceeded(c, time)
  }

  /**
   * While an event of the next Ethereum block halts, no proposer that hears of it can build a block, and no
   * verifier that does accepts one that syncs; once the update delay is exceeded it accepts none at all.
   */
  lemma {:induction false} HaltedChain(c: Ctx, height: nat, native: seq<bytes>, maxTxBytes: nat, time: int,
                                       txs: seq<bytes>, answer: Answer)
    requires WellFormed(c) && !NoneHalts(c, height, answer)
    ensures Prepare(c, height, native, maxTxBytes, answer).None?
    ensures Accepts(c, height, time, txs, answer) ==> Idles(c, time, txs)
  {
    hide WellFormed, Validated, Pending, Seqs, NoneHalts, Filled, EventBudget, IndexTx, Verified, DelayExceeded;
    WellFormedIsFaithful(c);
    PendingIff(c, height, answer);
  }

  /** Without native transactions, whatever can be planned is prepared, and accepted. */
  lemma {:induction false} PlannedIsProposed(c: Ctx, height: nat, maxTxBytes: nat, answer: Answer, time: int, p: Plan)
    requires WellFormed(c) && Planned(c, height, [], maxTxBytes, answer) == Some(p) && !answer.failed
    ensures Prepare(c, height, [], maxTxBytes, answer) == Some(Proposals.Injected(c, height, p))
    ensures Accepts(c, height, time, Proposals.Injected(c, height, p), answer)
  {
    hide *;
    WellFormedIsFaithful(c);
    ValidGas(c);
    NothingIsFree(c.env.decode);
    PlanLeavesSupply(c, height, [], maxTxBytes, answer);
    NativeNotDropped(c, height, [], maxTxBytes, answer, p);
    assert Proposals.Injected(c, height, p) + [] == Proposals.Injected(c, height, p);
    Completeness(c, height, [], maxTxBytes, answer, time, Proposals.Injected(c, height, p));
  }

  /** A block that relays everything pending is accepted, whatever follows, if its gas check passes. */
  lemma {:induction false} FullBlockAccepted(c: Ctx, height: nat, time: int, answer: Answer, p: Plan, rest: seq<bytes>)
    requires WellFormed(c) && Pending(c, height, answer) == Some(p) && !answer.failed
    requires Verified(Proposals.Injected(c, height, p) + rest, c.env.decode, 0, c.maxGas)
    ensures Accepts(c, height, time, Proposals.Injected(c, height, p) + rest, answer)
  {
    hide WellFormed, Validated, Pending, Rebuilt, Accepts, ReadIndex, IndexTx, Verified, Seqs;
    WellFormedIsFaithful(c);
    PendingShape(c, height, answer, p);
    RebuiltFromPlan(c, height, answer, time, p);
    IndexReadsBack(c, p.msg, Seqs(c, height).index);
    AcceptsInjected(c, height, time, Proposals.Injected(c, height, p) + rest, answer, p);
  }

  /** A proposer whose sidecar answers always proposes to sync. */
  lemma {:induction false} AnsweredSyncs(c: Ctx, height: nat, native: seq<bytes>, maxTxBytes: nat, answer: Answer, p: Plan)
    requires Validated(c) && Planned(c, height, native, maxTxBytes, answer) == Some(p) && !answer.failed
    ensures !p.msg.NoSync()
  {
    PlannedIsCut(c, height, native, maxTxBytes, answer, p);
    PendingShape(c, height, answer, Pending(c, height, answer).value);
  }

  /** Progress of one block that syncs: an event is relayed or an Ethereum block is finished. */
  lemma {:induction false} StepProgress(truth: Truth, s: Step)
    requires Committed(truth, s)
    requires s.b.txs != [] && ReadIndex(s.c.env, s.b.txs[0]).Some? && 1 + IndexOf(s).num <= |s.b.txs|
    requires !IndexOf(s).NoSync()
    ensures s.c.st.lastSynced.Some? && After(s).lastSynced.Some?
    ensures |EventTxs(s)| + After(s).lastSynced.value - s.c.st.lastSynced.value >= 1
  {
    AcceptedAfter(s);
    hide Committed, ReadIndex, After;
  }

  /**
   * How long a chain may idle: right after a block that synced at time u, a block without syncing is accepted
   * iff that finished its Ethereum block and the time is at most u plus the maximum delay, as far as its other
   * checks pass.
   */
  lemma {:induction false} IdleAfterSync(s: Step, c: Ctx, height: nat, time: int, rest: seq<bytes>, answer: Answer)
    requires Accepted(s) && s.b.txs != [] && ReadIndex(s.c.env, s.b.txs[0]).Some? && !IndexOf(s).NoSync()
    requires WellFormed(c) && c.st == After(s) && c.st.lastSynced.Some?
    ensures var block := Proposals.Injected(c, height, Plan(NoSyncIndex(c), [])) + rest;
            Accepts(c, height, time, block, answer) <==>
            && c.blocked.Some? && IndexOf(s).newBlock && time <= s.b.time + c.params.maxUpdateDelay
            && Verified(block, c.env.decode, 0, c.maxGas)
  {
    hide ReadIndex, After, WellFormed, Validated, Accepts, Verified, Proposals.Injected;
    WellFormedIsFaithful(c);
    AcceptedAfter(s);
    IdleAccepted(c, height, time, rest, answer);
  }

  /** And over a run: however many idle blocks follow a block that synced, none is later than that. */
  lemma {:induction false} IdleWindow(truth: Truth, steps: seq<Step>, i: nat, j: nat)
    requires Run(truth, steps) && i < j < |steps|
    requires forall k :: i <= k <= j ==> steps[k].b.txs != [] && ReadIndex(steps[k].c.env, steps[k].b.txs[0]).Some?
    requires !IndexOf(steps[i]).NoSync() && forall k :: i < k <= j ==> IndexOf(steps[k]).NoSync()
    ensures steps[j].b.time <= steps[i].b.time + steps[j].c.params.maxUpdateDelay
  {
    hide Run, ReadIndex, Accepted, Honest;
    LastUpdateStays(truth, steps, i, j);
    IdleInTime(steps[j]);
  }

  lemma {:induction false} IdleInTime(s: Step)
    requires Accepted(s) && s.b.txs != [] && ReadIndex(s.c.env, s.b.txs[0]).Some? && IndexOf(s).NoSync()
    ensures s.c.st.lastUpdate.Some? ==> s.b.time <= s.c.st.lastUpdate.value + s.c.params.maxUpdateDelay
  {
    hide WellFormed, Validated, ReadIndex, Pending, IndexTx, Verified, SupplyDeltaAt;
  }

  lemma {:induction false} LastUpdateStays(truth: Truth, steps: seq<Step>, i: nat, j: nat)
    requires Run(truth, steps) && i < j < |steps|
    requires forall k :: i <= k <= j ==> steps[k].b.txs != [] && ReadIndex(steps[k].c.env, steps[k].b.txs[0]).Some?
    requires !IndexOf(steps[i]).NoSync() && forall k :: i < k < j ==> IndexOf(steps[k]).NoSync()
    ensures Accepted(steps[j]) && steps[j].c.st.lastUpdate == Some(steps[i].b.time)
    decreases j
  {
    hide ReadIndex, Accepted, Honest, After;
    var s := steps[j - 1];
    assert Committed(truth, s) && Follows(truth, s, steps[j]);
    AcceptedAfter(s);
    if i < j - 1 {
      LastUpdateStays(truth, steps, i, j - 1);
    }
  }

  ghost predicate AllSync(steps: seq<Step>) {
    forall i :: 0 <= i < |steps| ==>
      steps[i].b.txs != [] && ReadIndex(steps[i].c.env, steps[i].b.txs[0]).Some? && !IndexOf(steps[i]).NoSync()
  }

  /**
   * Progress over a run: events relayed and Ethereum blocks finished together are at least as many as
   * the blocks that sync, so no event waits for more blocks than there are events and blocks before it.
   */
  lemma {:induction false} RunProgress(truth: Truth, steps: seq<Step>)
    requires Run(truth, steps) && steps != [] && AllSync(steps)
    ensures FinalState(truth, steps).lastSynced.Some? && steps[0].c.st.lastSynced.Some?
    ensures |Relayed(truth, steps)| + FinalState(truth, steps).lastSynced.value - steps[0].c.st.lastSynced.value >= |steps|
    decreases |steps|
  {
    hide Committed, After, ReadIndex, IndexOf, EventTxs, Relayed, FinalState;
    var n := |steps| - 1;
    RelayedLast(truth, steps);
    FinalIsAfter(truth, steps);
    StepProgress(truth, steps[n]);
    if n > 0 {
      RunProgress(truth, steps[..n]);
      assert Follows(truth, steps[n - 1], steps[n]);
      FinalIsAfter(truth, steps[..n]);
    }
  }
}
