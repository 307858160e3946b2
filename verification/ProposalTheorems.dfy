/** What the two handlers guarantee each other. */
module ProposalTheorems {
  import opened Base
  import opened TxWire
  import opened MsgIndexes
  import opened Selection
  import opened Events
  import opened Keeper
  import opened Proposals

  // ----- The injected part is well formed

  /** Generation counts its events and names the next Ethereum block; trimming keeps both true. */
  lemma {:induction false} PendingShape(c: Ctx, height: nat, answer: Answer, p: Plan)
    requires Validated(c) && Pending(c, height, answer) == Some(p)
    ensures c.st.lastSynced.Some? && c.st.offset.Some?
    ensures p.msg == MsgIndex(c.env.authority, |p.txs|, !answer.failed, c.st.lastSynced.value + 1)
    ensures c.st.offset.value < |answer.events| || (c.st.offset.value == 0 && answer.events == [])
    ensures |p.txs| == |answer.events| - c.st.offset.value
  {
    hide TranslateOne, Numbered, Translator, Seqs;
    var g := Generated(c.env, c.params, c.blocked.value, answer, c.st.lastSynced.value + 1, Seqs(c, height).firstEvent).value;
    TranslatePointwise(c.env, c.params, c.blocked.value, answer.events, c.st.lastSynced.value + 1, Seqs(c, height).firstEvent, g.txs);
  }

  /** Position `i` of the pending list is the translation of the `i`-th event not yet processed. */
  lemma {:induction false} PendingAt(c: Ctx, height: nat, answer: Answer, p: Plan, i: nat)
    requires Validated(c) && Pending(c, height, answer) == Some(p) && i < |p.txs|
    ensures TranslatesTo(c, height, answer, i, p.txs[i])
  {
    hide TranslateOne, Numbered, Translator, Seqs;
    var first, block, off := Seqs(c, height).firstEvent, c.st.lastSynced.value + 1, c.st.offset.value;
    var g := Generated(c.env, c.params, c.blocked.value, answer, block, first).value;
    TranslatePointwise(c.env, c.params, c.blocked.value, answer.events, block, first, g.txs);
    assert p.txs[i] == g.txs[off + i];
    assert EventSeq(c, height, i) == first + (off + i);
  }

  /** Transaction `tx` is what the `i`-th event not yet processed translates to. */
  ghost predicate TranslatesTo(c: Ctx, height: nat, answer: Answer, i: nat, tx: bytes)
    requires Validated(c)
  {
    && c.blocked.Some? && c.st.lastSynced.Some? && c.st.offset.Some?
    && c.st.offset.value + i < |answer.events|
    && TranslateOne(c.env, c.params, c.blocked.value, answer.events[c.st.offset.value + i],
                    c.st.lastSynced.value + 1, EventSeq(c, height, i)) == Some(tx)
  }

  lemma {:induction false} TranslatedAtCarries(c: Ctx, height: nat, answer: Answer, i: nat, tx: bytes)
    requires WellFormed(c) && TranslatesTo(c, height, answer, i, tx)
    ensures Carries(c.env, tx, answer.events[c.st.offset.value + i], c.st.lastSynced.value + 1, EventSeq(c, height, i))
  {
    TranslatedCarries(c.env, c.params, c.blocked.value, answer.events[c.st.offset.value + i],
                      c.st.lastSynced.value + 1, EventSeq(c, height, i));
  }

  /** Every pending transaction carries its own event. */
  lemma {:induction false} PendingCarries(c: Ctx, height: nat, answer: Answer, p: Plan, i: nat)
    requires WellFormed(c) && Pending(c, height, answer) == Some(p) && i < |p.txs|
    ensures c.st.offset.value + i < |answer.events|
    ensures Carries(c.env, p.txs[i], answer.events[c.st.offset.value + i],
                    c.st.lastSynced.value + 1, EventSeq(c, height, i))
  {
    PendingAt(c, height, answer, p, i);
    TranslatedAtCarries(c, height, answer, i, p.txs[i]);
  }

  lemma {:induction false} PendingFree(c: Ctx, height: nat, answer: Answer, p: Plan, i: nat)
    requires WellFormed(c) && Pending(c, height, answer) == Some(p) && i < |p.txs|
    ensures c.env.decode(p.txs[i]).Some? && c.env.decode(p.txs[i]).value.gas == 0
  {
    PendingCarries(c, height, answer, p, i);
    CarriedFree(c.env, p.txs[i], answer.events[c.st.offset.value + i],
                c.st.lastSynced.value + 1, EventSeq(c, height, i));
  }

  lemma {:induction false} IndexReadsBack(c: Ctx, m: MsgIndex, s: nat)
    requires WellFormed(c)
    ensures ReadIndex(c.env, IndexTx(m, s)) == Some(m)
    ensures c.env.decode(IndexTx(m, s)).Some? && c.env.decode(IndexTx(m, s)).value.gas == 0
  {
    var a := Any(INDEX_URL, IndexBytes(m));
    assert ConsensusAny(c.env, a);
    DecodesConsensusTx(c.env, a, s);
  }

  lemma {:induction false} SupplyFree(c: Ctx, height: nat)
    requires WellFormed(c)
    ensures ZeroGas(SupplyTxs(c, height), c.env.decode)
  {
    if IsSupplyDeltaBlock(c.params, height) {
      assert ConsensusAny(c.env, SupplyDeltaAny(c.env.authority));
      DecodesConsensusTx(c.env, SupplyDeltaAny(c.env.authority), Seqs(c, height).supplyDelta);
    }
  }

  lemma {:induction false} InjectedFree(c: Ctx, height: nat, answer: Answer, pending: Plan, p: Plan, n: nat)
    requires WellFormed(c) && Pending(c, height, answer) == Some(pending)
    requires KeepHead(pending.msg, pending.txs, n) == Some(p)
    ensures ZeroGas(Injected(c, height, p), c.env.decode)
  {
    IndexReadsBack(c, p.msg, Seqs(c, height).index);
    SupplyFree(c, height);
    forall i | 0 <= i < |p.txs|
      ensures c.env.decode(p.txs[i]).Some? && c.env.decode(p.txs[i]).value.gas == 0
    {
      PendingFree(c, height, answer, pending, i);
    }
    ZeroGasConcat(IndexTx(p.msg, Seqs(c, height).index), p.txs, SupplyTxs(c, height), c.env.decode);
  }

  lemma ZeroGasConcat(first: bytes, a: seq<bytes>, b: seq<bytes>, decode: Decoder)
    requires decode(first).Some? && decode(first).value.gas == 0 && ZeroGas(a, decode) && ZeroGas(b, decode)
    ensures ZeroGas([first] + a + b, decode)
  {
    var all := [first] + a + b;
    forall i | 0 <= i < |all|
      ensures decode(all[i]).Some? && decode(all[i]).value.gas == 0
    {
      if 1 <= i <= |a| {
        assert all[i] == a[i - 1];
      } else if i > |a| {
        assert all[i] == b[i - 1 - |a|];
      }
    }
  }

  // ----- Budget

  /** Whenever planning succeeds, everything injected fits in the block, with room for the native share. */
  lemma {:induction false} InjectedFits(c: Ctx, height: nat, native: seq<bytes>, maxTxBytes: nat, answer: Answer, p: Plan)
    requires Validated(c) && Planned(c, height, native, maxTxBytes, answer) == Some(p)
    ensures |BlockData(Injected(c, height, p))| <= maxTxBytes
    ensures TxsSize(Injected(c, height, p)) <= maxTxBytes
    ensures TxsSize(SupplyTxs(c, height)) <= maxTxBytes
    ensures TxsSize(native) <= c.params.nativeShare(maxTxBytes - TxsSize(SupplyTxs(c, height))) ==>
              TxsSize(Injected(c, height, p)) + TxsSize(native) <= maxTxBytes
  {
    PlannedBudget(c, height, native, maxTxBytes, answer, p);
    BudgetedFits(c, height, native, maxTxBytes, p);
    TxsSizeIsBlockData(Injected(c, height, p));
  }

  lemma {:induction false} BudgetedFits(c: Ctx, height: nat, native: seq<bytes>, maxTxBytes: nat, p: Plan)
    requires Validated(c) && TxsSize(SupplyTxs(c, height)) <= maxTxBytes
    requires TxSize(IndexTx(p.msg, Seqs(c, height).index)) + TxsSize(p.txs) <= BudgetOf(c, height, native, maxTxBytes)
    ensures TxsSize(Injected(c, height, p)) <= maxTxBytes
    ensures TxsSize(native) <= c.params.nativeShare(maxTxBytes - TxsSize(SupplyTxs(c, height))) ==>
              TxsSize(Injected(c, height, p)) + TxsSize(native) <= maxTxBytes
  {
    hide TxSize, TxsSize;
    InjectedSize(c, height, p);
    RoomForNative(TxSize(IndexTx(p.msg, Seqs(c, height).index)) + TxsSize(p.txs), TxsSize(SupplyTxs(c, height)),
                  TxsSize(native), maxTxBytes, c.params.nativeShare(maxTxBytes - TxsSize(SupplyTxs(c, height))));
  }

  lemma {:induction false} PlanLeavesSupply(c: Ctx, height: nat, native: seq<bytes>, maxTxBytes: nat, answer: Answer)
    requires Validated(c) && Planned(c, height, native, maxTxBytes, answer).Some?
    ensures TxsSize(SupplyTxs(c, height)) <= maxTxBytes
  {
  }

  ghost function BudgetOf(c: Ctx, height: nat, native: seq<bytes>, maxTxBytes: nat): nat
    requires Validated(c) && TxsSize(SupplyTxs(c, height)) <= maxTxBytes
  {
    var space := maxTxBytes - TxsSize(SupplyTxs(c, height));
    EventBudget(TxsSize(native), space, c.params.nativeShare(space))
  }

  lemma {:induction false} PlannedIsWithin(c: Ctx, height: nat, native: seq<bytes>, maxTxBytes: nat, answer: Answer)
    requires Validated(c) && TxsSize(SupplyTxs(c, height)) <= maxTxBytes
    ensures Planned(c, height, native, maxTxBytes, answer)
         == PlannedWithin(c, height, answer, BudgetOf(c, height, native, maxTxBytes))
  {
  }

  lemma {:induction false} PlannedBudget(c: Ctx, height: nat, native: seq<bytes>, maxTxBytes: nat, answer: Answer, p: Plan)
    requires Validated(c) && Planned(c, height, native, maxTxBytes, answer) == Some(p)
    ensures TxsSize(SupplyTxs(c, height)) <= maxTxBytes
    ensures TxSize(IndexTx(p.msg, Seqs(c, height).index)) + TxsSize(p.txs) <= BudgetOf(c, height, native, maxTxBytes)
  {
    PlanLeavesSupply(c, height, native, maxTxBytes, answer);
    PlannedIsWithin(c, height, native, maxTxBytes, answer);
    FittedFits(c, height, answer, BudgetOf(c, height, native, maxTxBytes), p);
  }

  lemma RoomForNative(events: nat, supply: nat, native: nat, max: nat, share: nat)
    requires supply <= max && share <= max - supply && events <= EventBudget(native, max - supply, share)
    ensures events + supply <= max
    ensures native <= share ==> events + supply + native <= max
  {
    NativeAllocation(native, max - supply, share);
  }

  lemma {:induction false} FittedFits(c: Ctx, height: nat, answer: Answer, budget: nat, p: Plan)
    requires Validated(c) && PlannedWithin(c, height, answer, budget) == Some(p)
    ensures TxSize(IndexTx(p.msg, Seqs(c, height).index)) + TxsSize(p.txs) <= budget
  {
    hide Pending, TxSize, TxsSize, IndexTx, Seqs, FitCount, KeepHead;
    var pending := Pending(c, height, answer).value;
    PendingShape(c, height, answer, pending);
    CutFitsBudget(pending.msg, pending.txs, Seqs(c, height).index, budget, p);
  }

  lemma {:induction false} InjectedSize(c: Ctx, height: nat, p: Plan)
    requires Validated(c)
    ensures TxsSize(Injected(c, height, p))
         == TxSize(IndexTx(p.msg, Seqs(c, height).index)) + TxsSize(p.txs) + TxsSize(SupplyTxs(c, height))
  {
    var first := [IndexTx(p.msg, Seqs(c, height).index)];
    assert first[1..] == [];
    TxsSizeAppend(first, p.txs);
    TxsSizeAppend(first + p.txs, SupplyTxs(c, height));
  }

  /**
   * The greedy selector takes the whole injected part as the block's prefix, the byte and gas limits
   * hold, and the minimum-count check cannot fail: Prepare errs only before selection or when some
   * transaction it looks at does not decode.
   */
  lemma {:induction false} PreparedBlock(c: Ctx, height: nat, native: seq<bytes>, maxTxBytes: nat, answer: Answer, p: Plan)
    requires WellFormed(c) && Planned(c, height, native, maxTxBytes, answer) == Some(p)
    ensures var fed := Feed(NOTHING, Injected(c, height, p) + native, c.env.decode, maxTxBytes, GasWord(c.maxGas));
            && (Prepare(c, height, native, maxTxBytes, answer).Some? <==> fed.Some?)
            && (fed.Some? ==>
                  && fed.value.txs == Prepare(c, height, native, maxTxBytes, answer).value
                  && Injected(c, height, p) <= fed.value.txs
                  && Subsequence(fed.value.txs, Injected(c, height, p) + native)
                  && |BlockData(fed.value.txs)| <= maxTxBytes
                  && Verified(fed.value.txs, c.env.decode, 0, c.maxGas))
  {
    hide TranslateOne, Pending, Planned, Feed, TxSize, TxsSize, IndexTx, Verified, Subsequence;
    PrepareIsFilled(c, height, native, maxTxBytes, answer, p);
    PlannedFree(c, height, native, maxTxBytes, answer, p);
    InjectedFits(c, height, native, maxTxBytes, answer, p);
    FedBlock(Injected(c, height, p), native, c.env.decode, maxTxBytes, c.maxGas);
    var fed := Feed(NOTHING, Injected(c, height, p) + native, c.env.decode, maxTxBytes, GasWord(c.maxGas));
    if fed.Some? {
      TxsSizeIsBlockData(fed.value.txs);
    }
  }

  /** The selector on any gas-free prefix that fits: it stays a prefix, and the result is in order and within limits. */
  lemma {:induction false} FedBlock(free: seq<bytes>, rest: seq<bytes>, decode: Decoder, maxBytes: nat, maxGas: int)
    requires -0x8000_0000_0000_0000 <= maxGas < 0x8000_0000_0000_0000
    requires ZeroGas(free, decode) && TxsSize(free) <= maxBytes
    ensures var fed := Feed(NOTHING, free + rest, decode, maxBytes, GasWord(maxGas));
            fed.Some? ==>
              && free <= fed.value.txs
              && Subsequence(fed.value.txs, free + rest)
              && TxsSize(fed.value.txs) <= maxBytes
              && Verified(fed.value.txs, decode, 0, maxGas)
  {
    var fed := Feed(NOTHING, free + rest, decode, maxBytes, GasWord(maxGas));
    if fed.Some? {
      FreePrefixIsTaken(NOTHING, free, rest, decode, maxBytes, GasWord(maxGas));
      assert NOTHING.txs + free == free;
      FeedIsSound(NOTHING, free + rest, decode, maxBytes, maxGas);
      FeedIsSubsequence(NOTHING, free + rest, decode, maxBytes, GasWord(maxGas));
      assert fed.value.txs[0..] == fed.value.txs;
    }
  }

  /** What Prepare keeps is the pending list cut at the count it announces. */
  lemma {:induction false} PlannedIsCut(c: Ctx, height: nat, native: seq<bytes>, maxTxBytes: nat, answer: Answer, p: Plan)
    requires Validated(c) && Planned(c, height, native, maxTxBytes, answer) == Some(p)
    ensures Pending(c, height, answer).Some?
    ensures KeepHead(Pending(c, height, answer).value.msg, Pending(c, height, answer).value.txs, |p.txs|) == Some(p)
    ensures p.msg.num == |p.txs|
  {
    hide Generated, TxSize, TxsSize, IndexTx;
    PendingShape(c, height, answer, Pending(c, height, answer).value);
  }

  /**
   * The proposer relays as much as it can: the events it keeps are the longest prefix of the pending ones that
   * fits beside MsgIndex in the bytes that MsgSupplyDelta and the native transactions, up to their share, leave.
   */
  lemma {:induction false} PlannedIsLargest(c: Ctx, height: nat, native: seq<bytes>, maxTxBytes: nat, answer: Answer, p: Plan, k: nat)
    requires Validated(c) && Planned(c, height, native, maxTxBytes, answer) == Some(p)
    ensures Pending(c, height, answer).Some? && |p.txs| <= |Pending(c, height, answer).value.txs|
    ensures var pending := Pending(c, height, answer).value;
            var supply, own := |BlockData(SupplyTxs(c, height))|, |BlockData(native)|;
            && supply <= maxTxBytes
            && var share := c.params.nativeShare(maxTxBytes - supply);
               var kept := if own <= share then own else share;
               k <= |pending.txs| ==>
                 (k <= |p.txs| <==>
                  |BlockData([IndexTx(pending.msg, Seqs(c, height).index)])| + |BlockData(pending.txs[..k])| + supply + kept <= maxTxBytes)
  {
    hide Pending, TxSize, TxsSize, IndexTx, Seqs, BlockData, SupplyTxs;
    PlannedIsCut(c, height, native, maxTxBytes, answer, p);
    var pending := Pending(c, height, answer).value;
    TxsSizeIsBlockData(SupplyTxs(c, height));
    TxsSizeIsBlockData(native);
    TxSizeIsBlockData(IndexTx(pending.msg, Seqs(c, height).index));
    var supply := TxsSize(SupplyTxs(c, height));
    NativeAllocation(TxsSize(native), maxTxBytes - supply, c.params.nativeShare(maxTxBytes - supply));
    if k <= |pending.txs| {
      TxsSizeIsBlockData(pending.txs[..k]);
      FitCountIsLargest(pending.txs, BudgetOf(c, height, native, maxTxBytes) - TxSize(IndexTx(pending.msg, Seqs(c, height).index)), k);
    }
  }

  /**
   * Native transactions are not crowded out: if they all decode, fit in their share, and their gas is
   * strictly below the limit (or there is none), the block is the injected part followed by all of them.
   */
  lemma {:induction false} NativeNotDropped(c: Ctx, height: nat, native: seq<bytes>, maxTxBytes: nat, answer: Answer, p: Plan)
    requires WellFormed(c) && Planned(c, height, native, maxTxBytes, answer) == Some(p)
    requires Decodable(native, c.env.decode)
    requires TxsSize(SupplyTxs(c, height)) <= maxTxBytes
    requires TxsSize(native) <= c.params.nativeShare(maxTxBytes - TxsSize(SupplyTxs(c, height)))
    requires c.maxGas == 0 || GasSum(native, c.env.decode) < GasWord(c.maxGas)
    ensures Prepare(c, height, native, maxTxBytes, answer) == Some(Injected(c, height, p) + native)
  {
    hide *;
    WellFormedIsFaithful(c);
    InjectedFits(c, height, native, maxTxBytes, answer, p);
    PlannedFree(c, height, native, maxTxBytes, answer, p);
    FilledWithAll(c, height, p, native, maxTxBytes);
    PrepareIsFilled(c, height, native, maxTxBytes, answer, p);
  }

  lemma {:induction false} PlannedFree(c: Ctx, height: nat, native: seq<bytes>, maxTxBytes: nat, answer: Answer, p: Plan)
    requires WellFormed(c) && Planned(c, height, native, maxTxBytes, answer) == Some(p)
    ensures p.msg.num == |p.txs| && ZeroGas(Injected(c, height, p), c.env.decode)
  {
    PlannedIsCut(c, height, native, maxTxBytes, answer, p);
    InjectedFree(c, height, answer, Pending(c, height, answer).value, p, |p.txs|);
  }

  lemma {:induction false} PrepareIsFilled(c: Ctx, height: nat, native: seq<bytes>, maxTxBytes: nat, answer: Answer, p: Plan)
    requires Validated(c) && Planned(c, height, native, maxTxBytes, answer) == Some(p)
    ensures Prepare(c, height, native, maxTxBytes, answer) == Filled(c, height, p, native, maxTxBytes)
  {
  }

  lemma {:induction false} FilledWithAll(c: Ctx, height: nat, p: Plan, native: seq<bytes>, maxTxBytes: nat)
    requires Validated(c) && p.msg.num == |p.txs|
    requires ZeroGas(Injected(c, height, p), c.env.decode) && Decodable(native, c.env.decode)
    requires TxsSize(Injected(c, height, p)) + TxsSize(native) <= maxTxBytes
    requires c.maxGas == 0 || GasSum(native, c.env.decode) < GasWord(c.maxGas)
    ensures Filled(c, height, p, native, maxTxBytes) == Some(Injected(c, height, p) + native)
  {
    FreeThenAll(Injected(c, height, p), native, c.env.decode, maxTxBytes, GasWord(c.maxGas));
  }

  lemma {:induction false} FreeThenAll(free: seq<bytes>, rest: seq<bytes>, decode: Decoder, maxBytes: nat, maxGas: uint64)
    requires ZeroGas(free, decode) && Decodable(rest, decode)
    requires TxsSize(free) + TxsSize(rest) <= maxBytes
    requires maxGas == 0 || GasSum(rest, decode) < maxGas
    ensures Feed(NOTHING, free + rest, decode, maxBytes, maxGas).Some?
    ensures Feed(NOTHING, free + rest, decode, maxBytes, maxGas).value.txs == free + rest
  {
    TxsSizeAppend(free, rest);
    FreeGas(free, rest, decode);
    NothingDropped(NOTHING, free + rest, decode, maxBytes, maxGas);
    assert NOTHING.txs + (free + rest) == free + rest;
  }

  lemma {:induction false} FreeGas(free: seq<bytes>, rest: seq<bytes>, decode: Decoder)
    requires ZeroGas(free, decode) && Decodable(rest, decode)
    ensures GasSum(free + rest, decode) == GasSum(rest, decode)
    ensures Decodable(free + rest, decode)
  {
    if free == [] {
      assert free + rest == rest;
    } else {
      assert (free + rest)[0] == free[0] && (free + rest)[1..] == free[1..] + rest;
      FreeGas(free[1..], rest, decode);
      assert forall i :: 1 <= i < |free + rest| ==> (free + rest)[i] == (free[1..] + rest)[i - 1];
    }
  }

  // ----- Completeness

  /**
   * Every prepared block is accepted by a verifier in the same state with the same sidecar answer,
   * with one exception that is exact: the proposer's sidecar failed and the update delay is exceeded.
   */
  lemma {:induction false} Completeness(c: Ctx, height: nat, native: seq<bytes>, maxTxBytes: nat, answer: Answer,
                                        time: int, block: seq<bytes>)
    requires WellFormed(c) && Prepare(c, height, native, maxTxBytes, answer) == Some(block)
    ensures Accepts(c, height, time, block, answer) <==>
            !(answer.failed && answer.events == [] && DelayExceeded(c, time))
  {
    assert Validated(c);
    var p := Planned(c, height, native, maxTxBytes, answer).value;
    PreparedBlock(c, height, native, maxTxBytes, answer, p);
    PlannedIsCut(c, height, native, maxTxBytes, answer, p);
    PendingShape(c, height, answer, Pending(c, height, answer).value);
    RebuiltFromPlan(c, height, answer, time, p);
    IndexReadsBack(c, p.msg, Seqs(c, height).index);
    AcceptsInjected(c, height, time, block, answer, p);
  }

  lemma {:induction false} RebuiltFromPlan(c: Ctx, height: nat, answer: Answer, time: int, p: Plan)
    requires Validated(c) && Pending(c, height, answer).Some?
    requires KeepHead(Pending(c, height, answer).value.msg, Pending(c, height, answer).value.txs, |p.txs|) == Some(p)
    requires p.msg.num == |p.txs|
    ensures Rebuilt(c, height, time, p.msg, answer)
         == if answer.failed && answer.events == [] && DelayExceeded(c, time) then None else Some(p)
  {
    PendingShape(c, height, answer, Pending(c, height, answer).value);
  }

  /** A block that starts with the injected part of the rebuilt plan is accepted iff its gas check passes. */
  lemma {:induction false} AcceptsInjected(c: Ctx, height: nat, time: int, txs: seq<bytes>, answer: Answer, p: Plan)
    requires Validated(c) && p.msg.num == |p.txs|
    requires Injected(c, height, p) <= txs
    requires ReadIndex(c.env, IndexTx(p.msg, Seqs(c, height).index)) == Some(p.msg)
    requires Rebuilt(c, height, time, p.msg, answer).Some? ==> Rebuilt(c, height, time, p.msg, answer) == Some(p)
    ensures Accepts(c, height, time, txs, answer) <==>
            Rebuilt(c, height, time, p.msg, answer).Some? && Verified(txs, c.env.decode, 0, c.maxGas)
  {
    hide Rebuilt, ReadIndex, IndexTx, SupplyDeltaTx, Verified;
    var inj := Injected(c, height, p);
    var n := |p.txs|;
    assert txs[0] == inj[0] == IndexTx(p.msg, Seqs(c, height).index);
    assert txs[1..1 + n] == inj[1..1 + n] == p.txs;
    if IsSupplyDeltaBlock(c.params, height) {
      assert txs[1 + n] == inj[1 + n] == SupplyTxs(c, height)[0];
    }
  }

  // ----- Soundness and agreement

  /** The converse shape: an accepted block starts with exactly the injected part the verifier rebuilt. */
  lemma {:induction false} AcceptedShape(c: Ctx, height: nat, time: int, txs: seq<bytes>, answer: Answer)
    returns (p: Plan)
    requires WellFormed(c) && Accepts(c, height, time, txs, answer)
    ensures ReadIndex(c.env, txs[0]) == Some(p.msg) && p.msg.num == |p.txs|
    ensures Rebuilt(c, height, time, p.msg, answer) == Some(p)
    ensures Injected(c, height, p) <= txs
    ensures p.msg.block == c.st.lastSynced.value + 1 && p.msg.authority == c.env.authority
  {
    hide Generated, IndexTx, SupplyDeltaTx, Verified, ReadIndex;
    var proposed := ReadIndex(c.env, txs[0]).value;
    p := Rebuilt(c, height, time, proposed, answer).value;
    IndexReadsBack(c, p.msg, Seqs(c, height).index);
    assert proposed == p.msg;
    if !proposed.NoSync() {
      PendingShape(c, height, answer, Pending(c, height, answer).value);
    }
    var n := p.msg.num;
    var inj := Injected(c, height, p);
    assert inj[1..1 + n] == p.txs;
    forall i | 0 <= i < |inj|
      ensures inj[i] == txs[i]
    {
      if 1 <= i <= n {
        assert inj[i] == p.txs[i - 1] == txs[1..1 + n][i - 1];
      }
    }
  }

  /** Whatever events the verifier expects are the first ones pending. */
  lemma {:induction false} RebuiltIsPrefix(c: Ctx, height: nat, time: int, p: Plan, answer: Answer)
    requires Validated(c) && Rebuilt(c, height, time, p.msg, answer) == Some(p) && p.txs != []
    ensures c.st.lastSynced.Some? && c.st.offset.Some?
    ensures Pending(c, height, answer).Some? && p.txs <= Pending(c, height, answer).value.txs
  {
    hide Generated;
  }

  /**
   * Soundness: in an accepted block that syncs, the proposer's MsgIndex is the verifier's own and the
   * event transactions are the first ones pending; it is a full sync iff the verifier's sidecar
   * answered and no event is held back.
   */
  lemma {:induction false} Soundness(c: Ctx, height: nat, time: int, txs: seq<bytes>, answer: Answer)
    returns (pending: Plan, n: nat)
    requires WellFormed(c) && Accepts(c, height, time, txs, answer)
    requires !ReadIndex(c.env, txs[0]).value.NoSync()
    ensures Pending(c, height, answer) == Some(pending) && n <= |pending.txs|
    ensures 1 + n <= |txs| && txs[1..1 + n] == pending.txs[..n]
    ensures ReadIndex(c.env, txs[0])
         == Some(MsgIndex(c.env.authority, n, !answer.failed && n == |pending.txs|, c.st.lastSynced.value + 1))
    ensures n > 0 || (pending.txs == [] && !answer.failed)
  {
    hide Generated, IndexTx, SupplyDeltaTx, Verified;
    var p := AcceptedShape(c, height, time, txs, answer);
    pending := Pending(c, height, answer).value;
    PendingShape(c, height, answer, pending);
    n := p.msg.num;
    assert p.txs == pending.txs[..n];
    assert txs[1..1 + n] == p.txs by {
      var inj := Injected(c, height, p);
      assert txs[1..1 + n] == inj[1..1 + n];
    }
  }

  /** Prefix agreement: of two syncing blocks acceptable in one state, one's event segment starts the other's. */
  lemma {:induction false} PrefixAgreement(c: Ctx, height: nat, answer: Answer, t1: int, a: seq<bytes>, t2: int, b: seq<bytes>)
    requires WellFormed(c)
    requires Accepts(c, height, t1, a, answer) && !ReadIndex(c.env, a[0]).value.NoSync()
    requires Accepts(c, height, t2, b, answer) && !ReadIndex(c.env, b[0]).value.NoSync()
    ensures var m, n := ReadIndex(c.env, a[0]).value.num, ReadIndex(c.env, b[0]).value.num;
            1 + m <= |a| && 1 + n <= |b| && (a[1..1 + m] <= b[1..1 + n] || b[1..1 + n] <= a[1..1 + m])
  {
    hide *;
    var pa, m := Soundness(c, height, t1, a, answer);
    var pb, n := Soundness(c, height, t2, b, answer);
    var k := if m <= n then m else n;
    assert pa.txs[..m][..k] == pa.txs[..k] == pa.txs[..n][..k];
  }

  // ----- Blocks that do not sync

  /**
   * A block without Ethereum syncing is judged without the sidecar, and accepted iff no Ethereum block
   * is half consumed and the update delay is not exceeded.
   */
  lemma {:induction false} NoSyncAccepted(c: Ctx, height: nat, time: int, rest: seq<bytes>, answer: Answer)
    requires WellFormed(c) && c.blocked.Some? && c.st.lastSynced.Some? && c.st.offset.Some?
    requires Verified(Injected(c, height, Plan(NoSyncIndex(c), [])) + rest, c.env.decode, 0, c.maxGas)
    ensures Accepts(c, height, time, Injected(c, height, Plan(NoSyncIndex(c), [])) + rest, answer) <==>
            c.st.offset.value == 0 && !DelayExceeded(c, time)
  {
    var p := Plan(NoSyncIndex(c), []);
    IndexReadsBack(c, p.msg, Seqs(c, height).index);
    AcceptsInjected(c, height, time, Injected(c, height, p) + rest, answer, p);
  }

  /**
   * The same in full: a block without syncing is accepted iff the state is found, no Ethereum block is half
   * consumed, its gas check passes and, after a last update at time u, its time is at most u plus the
   * maximum delay.
   */
  lemma {:induction false} IdleAccepted(c: Ctx, height: nat, time: int, rest: seq<bytes>, answer: Answer)
    requires WellFormed(c) && c.st.lastSynced.Some?
    ensures var block := Injected(c, height, Plan(NoSyncIndex(c), [])) + rest;
            Accepts(c, height, time, block, answer) <==>
            && c.blocked.Some? && c.st.offset == Some(0)
            && (c.st.lastUpdate.Some? ==> time <= c.st.lastUpdate.value + c.params.maxUpdateDelay)
            && Verified(block, c.env.decode, 0, c.maxGas)
  {
    hide WellFormed, Validated, Injected, Verified, Pending, IndexTx, ReadIndex;
    WellFormedIsFaithful(c);
    var block := Injected(c, height, Plan(NoSyncIndex(c), [])) + rest;
    if c.blocked.Some? && c.st.offset.Some? && Verified(block, c.env.decode, 0, c.maxGas) {
      NoSyncAccepted(c, height, time, rest, answer);
    }
  }

  /** Nothing is accepted in a state that is not there. */
  lemma {:induction false} AcceptedStateFound(c: Ctx, height: nat, time: int, txs: seq<bytes>, answer: Answer)
    requires Validated(c) && Accepts(c, height, time, txs, answer)
    ensures c.blocked.Some? && c.st.lastSynced.Some? && c.st.offset.Some?
  {
    hide Validated, Verified, Pending, IndexTx, ReadIndex, SupplyDeltaAt;
  }

  /** Whatever the sidecar says, the verdict on a non-syncing block is the same. */
  lemma {:induction false} NoSyncIgnoresSidecar(c: Ctx, height: nat, time: int, txs: seq<bytes>, a: Answer, b: Answer)
    requires Validated(c) && txs != [] && ReadIndex(c.env, txs[0]).Some? && ReadIndex(c.env, txs[0]).value.NoSync()
    ensures Accepts(c, height, time, txs, a) <==> Accepts(c, height, time, txs, b)
  {
    var m := ReadIndex(c.env, txs[0]).value;
    assert Rebuilt(c, height, time, m, a) == Rebuilt(c, height, time, m, b);
  }
}
