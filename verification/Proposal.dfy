/** Building and checking block proposals. */
module Proposals {
  import opened Base
  import opened TxWire
  import opened MsgIndexes
  import opened Selection
  import opened Events
  import opened Keeper

  /** What both handlers read from committed state; `blocked` is None when the lookup fails. */
  datatype Ctx = Ctx(env: Env, params: Params, maxGas: int, blocked: Option<set<string>>, st: State)

  /** Validated parameters, a 64-bit gas limit and faithful libraries. */
  ghost predicate WellFormed(c: Ctx) {
    && Faithful(c.env)
    && Validated(c)
  }

  lemma WellFormedIsFaithful(c: Ctx)
    requires WellFormed(c)
    ensures Faithful(c.env) && Validated(c)
  {
  }

  ghost predicate Validated(c: Ctx) {
    && c.params.supplyDeltaPeriod > 0
    && (forall space: nat :: c.params.nativeShare(space) <= space)
    && -0x8000_0000_0000_0000 <= c.maxGas < 0x8000_0000_0000_0000
  }

  function Seqs(c: Ctx, height: nat): Sequences
    requires Validated(c)
  {
    TxSequences(c.st.lastSequence, IsSupplyDeltaBlock(c.params, height))
  }

  function SupplyTxs(c: Ctx, height: nat): seq<bytes>
    requires Validated(c)
  {
    if IsSupplyDeltaBlock(c.params, height) then [SupplyDeltaTx(c.env.authority, Seqs(c, height).supplyDelta)] else []
  }

  /** The events of the next Ethereum block as transactions, without those already processed. */
  function Pending(c: Ctx, height: nat, answer: Answer): Option<Plan>
    requires Validated(c)
  {
    if c.blocked.None? || c.st.lastSynced.None? || c.st.offset.None? then None
    else
      var g := Generated(c.env, c.params, c.blocked.value, answer, c.st.lastSynced.value + 1, Seqs(c, height).firstEvent);
      if g.None? then None else TrimHead(g.value.msg, g.value.txs, c.st.offset.value)
  }

  /** The sequence of pending event `i`: events already processed count too. */
  function EventSeq(c: Ctx, height: nat, i: nat): nat
    requires Validated(c) && c.st.offset.Some?
  {
    Seqs(c, height).firstEvent + c.st.offset.value + i
  }

  // ----- PrepareProposal

  /** `MulInt` and `TruncateInt64` on a decimal with eighteen places. */
  function DecimalShare(allocation: nat, space: nat): nat {
    allocation * space / 1_000_000_000_000_000_000
  }

  /** Any validated allocation, which is at most one half, reserves at most half of the space. */
  lemma AllocationIsValid(allocation: nat, space: nat)
    requires allocation <= 500_000_000_000_000_000
    ensures DecimalShare(allocation, space) <= space / 2
  {
    assert allocation * space <= 500_000_000_000_000_000 * space;
  }

  /** The share is the allocation's part of the space, rounded down. */
  lemma {:induction false} ShareIsRoundedDown(allocation: nat, space: nat)
    ensures var share, whole := DecimalShare(allocation, space), 1_000_000_000_000_000_000;
            share * whole <= allocation * space < (share + 1) * whole
  {
    var product := allocation * space;
    assert product == 1_000_000_000_000_000_000 * (product / 1_000_000_000_000_000_000) + product % 1_000_000_000_000_000_000;
  }

  /** So the share that any validated allocation reserves is one the handlers' arithmetic can take. */
  lemma {:induction false} AllocationIsShare(c: Ctx, allocation: nat)
    requires allocation <= 500_000_000_000_000_000 && c.params.supplyDeltaPeriod > 0
    requires -0x8000_0000_0000_0000 <= c.maxGas < 0x8000_0000_0000_0000
    ensures Validated(c.(params := c.params.(nativeShare := (space: nat) => DecimalShare(allocation, space))))
  {
    hide DecimalShare;
    forall space: nat
      ensures DecimalShare(allocation, space) <= space
    {
      AllocationIsValid(allocation, space);
    }
  }

  /** The bytes left for MsgIndex and events, as the handler branches; uint64 subtractions must not wrap. */
  function EventBudget(native: nat, space: nat, share: nat): nat
    requires share <= space
  {
    if native > space then space - share
    else
      var a, b := space - native, space - share;
      if a >= b then a else b
  }

  /** Both branches are one formula: native transactions hold back what they need, up to their share. */
  lemma NativeAllocation(native: nat, space: nat, share: nat)
    requires share <= space
    ensures EventBudget(native, space, share) == space - (if native <= share then native else share)
  {
  }

  /** The pending events cut to the bytes left for them. */
  function Fitted(m: MsgIndex, txs: seq<bytes>, budget: nat, sequence: nat): Option<Plan> {
    var indexSize := TxSize(IndexTx(m, sequence));
    if indexSize > budget then None else KeepHead(m, txs, FitCount(txs, budget - indexSize))
  }

  function PlannedWithin(c: Ctx, height: nat, answer: Answer, budget: nat): Option<Plan>
    requires Validated(c)
  {
    var p := Pending(c, height, answer);
    if p.None? then None else Fitted(p.value.msg, p.value.txs, budget, Seqs(c, height).index)
  }

  /** The injected part of the block: MsgIndex and the kept events. */
  function Planned(c: Ctx, height: nat, native: seq<bytes>, maxTxBytes: nat, answer: Answer): Option<Plan>
    requires Validated(c)
  {
    var supply := TxsSize(SupplyTxs(c, height));
    if supply > maxTxBytes then None
    else PlannedWithin(c, height, answer, EventBudget(TxsSize(native), maxTxBytes - supply, c.params.nativeShare(maxTxBytes - supply)))
  }

  /** MsgIndex, events, supply delta: what consensus puts before the native transactions. */
  function Injected(c: Ctx, height: nat, p: Plan): seq<bytes>
    requires Validated(c)
  {
    [IndexTx(p.msg, Seqs(c, height).index)] + p.txs + SupplyTxs(c, height)
  }

  predicate EnoughTxs(n: nat, p: Plan, supplyDelta: bool) {
    n >= 1 + p.msg.num + (if supplyDelta then 1 else 0)
  }

  /** The block as the selector fills it after the injected part. */
  function Filled(c: Ctx, height: nat, p: Plan, native: seq<bytes>, maxTxBytes: nat): Option<seq<bytes>>
    requires Validated(c)
  {
    var r := Feed(NOTHING, Injected(c, height, p) + native, c.env.decode, maxTxBytes, GasWord(c.maxGas));
    if r.None? || !EnoughTxs(|r.value.txs|, p, IsSupplyDeltaBlock(c.params, height)) then None
    else Some(r.value.txs)
  }

  /** `PrepareProposal`; None is an error. */
  function Prepare(c: Ctx, height: nat, native: seq<bytes>, maxTxBytes: nat, answer: Answer): Option<seq<bytes>>
    requires Validated(c)
  {
    var p := Planned(c, height, native, maxTxBytes, answer);
    if p.None? then None else Filled(c, height, p.value, native, maxTxBytes)
  }

  /** Generating MsgIndex and trimming what was already processed; both handlers start this way. */
  method GeneratePending(c: Ctx, height: nat, answer: Answer) returns (msgIndex: IndexRef?, txs: seq<bytes>)
    requires Validated(c) && c.blocked.Some? && c.st.lastSynced.Some? && c.st.offset.Some?
    ensures msgIndex == null <==> Pending(c, height, answer).None?
    ensures msgIndex != null ==> fresh(msgIndex) && msgIndex.num == |txs|
                                 && Pending(c, height, answer) == Some(Plan(msgIndex.Value(), txs))
  {
    hide TranslateOne, Numbered, Translator;
    var seqs := TxSequences(c.st.lastSequence, IsSupplyDeltaBlock(c.params, height));
    var g := GenerateMsgIndexAndEventTxs(c.env, c.params, c.blocked.value, answer, c.st.lastSynced.value + 1, seqs.firstEvent);
    if g.None? {
      return null, [];
    }
    msgIndex := new IndexRef(g.value.msg);
    var pending := msgIndex.TrimEventsFromHead(g.value.txs, c.st.offset.value);
    if pending.None? {
      return null, [];
    }
    txs := pending.value;
  }

  /** Trimming from the tail to the bytes left for events. */
  method FitEvents(c: Ctx, height: nat, msgIndex: IndexRef, pending: seq<bytes>, budget: nat) returns (r: Option<seq<bytes>>)
    requires Validated(c) && msgIndex.num == |pending|
    modifies msgIndex
    ensures var p := Fitted(old(msgIndex.Value()), pending, budget, Seqs(c, height).index);
            if r.None? then p.None? else p == Some(Plan(msgIndex.Value(), r.value)) && msgIndex.num == |r.value|
  {
    var count := msgIndex.NumberOfEventsWithMaxBytes(pending, budget, Seqs(c, height).index);
    if count.None? {
      return None;
    }
    var trimmed;
    r, trimmed := msgIndex.KeepEventsFromHead(pending, count.value);
  }

  method PlanWithin(c: Ctx, height: nat, answer: Answer, budget: nat) returns (r: Option<Plan>)
    requires Validated(c)
    ensures r == PlannedWithin(c, height, answer, budget)
    ensures r.Some? ==> r.value.msg.num == |r.value.txs|
  {
    if c.blocked.None? || c.st.lastSynced.None? || c.st.offset.None? {
      return None;
    }
    var msgIndex, pending := GeneratePending(c, height, answer);
    if msgIndex == null {
      return None;
    }
    var kept := FitEvents(c, height, msgIndex, pending, budget);
    if kept.None? {
      return None;
    }
    return Some(Plan(msgIndex.Value(), kept.value));
  }

  /** The reserved space, and what is injected into it. */
  method PlanInjected(c: Ctx, height: nat, native: seq<bytes>, maxTxBytes: nat, answer: Answer) returns (r: Option<Plan>)
    requires Validated(c)
    ensures r == Planned(c, height, native, maxTxBytes, answer)
    ensures r.Some? ==> r.value.msg.num == |r.value.txs|
  {
    hide TxSize, TxsSize, PlannedWithin, SupplyTxs;
    var supplySize := ComputeTxsSize(SupplyTxs(c, height));
    if supplySize > maxTxBytes {
      return None;
    }
    var size := ComputeTxsSize(SupplyTxs(c, height) + native);
    TxsSizeAppend(SupplyTxs(c, height), native);
    var budget := EventBudget(size - supplySize, maxTxBytes - supplySize, c.params.nativeShare(maxTxBytes - supplySize));
    r := PlanWithin(c, height, answer, budget);
  }

  /** The handler: the request's transactions are replaced by the injected ones and then filled up. */
  method PrepareProposal(c: Ctx, selector: TxSelector, height: nat, native: seq<bytes>, maxTxBytes: nat, answer: Answer)
    returns (r: Option<seq<bytes>>)
    requires Validated(c) && selector.State() == NOTHING
    modifies selector
    ensures r == Prepare(c, height, native, maxTxBytes, answer)
    ensures selector.State() == NOTHING
  {
    var p := PlanInjected(c, height, native, maxTxBytes, answer);
    if p.None? {
      return None;
    }
    if p.value.msg.num != |p.value.txs| {
      assert false;
      return None;
    }
    var txs := Injected(c, height, p.value) + native;
    r := DefaultPrepare(selector, txs, c.env.decode, maxTxBytes, GasWord(c.maxGas));
    if r.Some? && !EnoughTxs(|r.value|, p.value, IsSupplyDeltaBlock(c.params, height)) {
      r := None;
    }
  }

  // ----- ProcessProposal

  /** `FromRawTxBytes`: the transaction decodes to one message, a MsgIndex. */
  function ReadIndex(env: Env, tx: bytes): Option<MsgIndex> {
    var d := env.decode(tx);
    if d.None? || |d.value.msgs| != 1 || d.value.msgs[0].typeUrl != INDEX_URL then None
    else env.parseIndex(d.value.msgs[0].value)
  }

  predicate DelayExceeded(c: Ctx, time: int) {
    c.st.lastUpdate.Some? && time > c.st.lastUpdate.value + c.params.maxUpdateDelay
  }

  /** The message of a proposer that did not sync with Ethereum. */
  function NoSyncIndex(c: Ctx): MsgIndex
    requires c.st.lastSynced.Some?
  {
    MsgIndex(c.env.authority, 0, false, c.st.lastSynced.value + 1)
  }

  /** The injected part as the verifier rebuilds it, given the proposer's MsgIndex. */
  function Rebuilt(c: Ctx, height: nat, time: int, proposed: MsgIndex, answer: Answer): Option<Plan>
    requires Validated(c)
  {
    if c.blocked.None? || c.st.lastSynced.None? || c.st.offset.None? then None
    else
      var p := if proposed.NoSync() then
                 if DelayExceeded(c, time) then None else TrimHead(NoSyncIndex(c), [], c.st.offset.value)
               else Pending(c, height, answer);
      if p.None? then None else KeepHead(p.value.msg, p.value.txs, proposed.num)
  }

  /** `ProcessProposal` accepts; every other outcome is a rejection. */
  predicate Accepts(c: Ctx, height: nat, time: int, txs: seq<bytes>, answer: Answer)
    requires Validated(c)
  {
    && txs != []
    && var proposed := ReadIndex(c.env, txs[0]);
    && proposed.Some?
    && var p := Rebuilt(c, height, time, proposed.value, answer);
    && p.Some?
    && 1 + proposed.value.num <= |txs|
    && txs[0] == IndexTx(p.value.msg, Seqs(c, height).index)
    && txs[1..1 + proposed.value.num] == p.value.txs
    && SupplyDeltaAt(c, height, txs, 1 + p.value.msg.num)
    && Verified(txs, c.env.decode, 0, c.maxGas)
    && EnoughTxs(|txs|, p.value, IsSupplyDeltaBlock(c.params, height))
  }

  /** `verifyInjectedMsgSupplyDeltaTx`, when one is expected. */
  predicate SupplyDeltaAt(c: Ctx, height: nat, txs: seq<bytes>, i: nat)
    requires Validated(c)
  {
    IsSupplyDeltaBlock(c.params, height) ==>
      i < |txs| && txs[i] == SupplyDeltaTx(c.env.authority, Seqs(c, height).supplyDelta)
  }

  /** The verifier's reconstruction, up to the cut at the proposer's count. */
  method Rebuild(c: Ctx, height: nat, time: int, proposed: MsgIndex, answer: Answer) returns (r: Option<Plan>)
    requires Validated(c)
    ensures r == Rebuilt(c, height, time, proposed, answer)
    ensures r.Some? ==> r.value.msg.num == |r.value.txs|
  {
    if c.blocked.None? || c.st.lastSynced.None? || c.st.offset.None? {
      return None;
    }
    var msgIndex: IndexRef?, pending: seq<bytes>;
    if proposed.NoSync() {
      if DelayExceeded(c, time) {
        return None;
      }
      msgIndex := new IndexRef(NoSyncIndex(c));
      var left := msgIndex.TrimEventsFromHead([], c.st.offset.value);
      if left.None? {
        return None;
      }
      pending := left.value;
    } else {
      msgIndex, pending := GeneratePending(c, height, answer);
      if msgIndex == null {
        return None;
      }
    }
    var kept, trimmed := msgIndex.KeepEventsFromHead(pending, proposed.num);
    if kept.None? {
      return None;
    }
    return Some(Plan(msgIndex.Value(), kept.value));
  }

  method ProcessProposal(c: Ctx, height: nat, time: int, txs: seq<bytes>, answer: Answer) returns (accept: bool)
    requires Validated(c)
    ensures accept == Accepts(c, height, time, txs, answer)
  {
    if |txs| == 0 {
      return false;
    }
    var proposed := ReadIndex(c.env, txs[0]);
    if proposed.None? {
      return false;
    }
    var p := Rebuild(c, height, time, proposed.value, answer);
    if p.None? {
      return false;
    }
    if p.value.msg.num != |p.value.txs| {
      assert false;
      return false;
    }
    if 1 + proposed.value.num > |txs| {
      return false;
    }
    if txs[0] != IndexTx(p.value.msg, Seqs(c, height).index) || txs[1..1 + proposed.value.num] != p.value.txs {
      return false;
    }
    if !SupplyDeltaAt(c, height, txs, 1 + p.value.msg.num) {
      return false;
    }
    var verified := VerifyTransactionsInProposal(txs, c.env.decode, c.maxGas);
    return verified && EnoughTxs(|txs|, p.value, IsSupplyDeltaBlock(c.params, height));
  }
}
