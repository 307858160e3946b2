/** Executing an accepted block: which transactions the ante handler lets through as injected. */
module Ante {
  import opened Base
  import opened TxWire
  import opened MsgIndexes
  import opened Events
  import opened Keeper
  import opened Proposals
  import opened ProposalTheorems

  datatype Meter = Infinite | Limited(id: int)
  datatype Meters = Meters(tx: Meter, block: Meter)

  const FREE: Meters := Meters(Infinite, Infinite)

  /** Where a transaction ends up: it never reaches the decorator, it is done with infinite meters, or it goes on. */
  datatype Outcome = Unseen | Injected(meters: Meters) | Onward(meters: Meters)

  datatype Handled = Handled(index: Option<BlockIndex>, outcome: Outcome)

  /** `InjectedTxsDecorator.AnteHandle`. */
  function AnteHandle(index: Option<BlockIndex>, height: nat, finalizing: bool, own: Meters): Handled {
    if height == 0 || !finalizing then Handled(index, Onward(own))
    else if index.None? then Handled(index, Injected(FREE))
    else if index.value.ante < index.value.total then
      Handled(Some(index.value.(ante := index.value.ante + 1)), Injected(FREE))
    else Handled(index, Onward(own))
  }

  /** The decorator over the stored index, swapping the meters of the context as it goes. */
  class InjectedTxsDecorator {
    var stored: Option<BlockIndex>

    constructor (index: Option<BlockIndex>)
      ensures stored == index
    {
      stored := index;
    }

    method Handle(height: nat, finalizing: bool, own: Meters) returns (outcome: Outcome)
      modifies this
      ensures Handled(stored, outcome) == AnteHandle(old(stored), height, finalizing, own)
      ensures outcome == Injected(FREE) <==>
              height > 0 && finalizing && (old(stored).None? || old(stored).value.ante < old(stored).value.total)
      ensures outcome != Injected(FREE) ==> outcome == Onward(own) && stored == old(stored)
      ensures outcome == Injected(FREE) && old(stored).Some? ==>
              stored == Some(BlockIndex(old(stored).value.total, old(stored).value.ante + 1, old(stored).value.failed))
      ensures old(stored).None? ==> stored.None?
    {
      if height == 0 || !finalizing {
        return Onward(own);
      }
      var cached, meters := own, FREE;
      var index := stored;
      if index.None? {
        return Injected(meters);
      }
      if index.value.ante < index.value.total {
        stored := Some(index.value.(ante := index.value.ante + 1));
        return Injected(meters);
      }
      meters := cached;
      return Onward(meters);
    }
  }

  /** The decorator sees a transaction only if it decodes to messages that all pass ValidateBasic and have a handler. */
  predicate Seen(env: Env, tx: bytes) {
    var d := env.decode(tx);
    d.Some? && d.value.msgs != [] && forall m | m in d.value.msgs :: env.validBasic(m) && env.handled(m)
  }

  /** The transactions of a block as the decorator meets them, with the meters each one brought. */
  datatype Block = Block(height: nat, time: int, txs: seq<bytes>, own: nat -> Meters)

  datatype Executed = Executed(index: Option<BlockIndex>, outcomes: seq<Outcome>)

  /** Failing special messages count themselves in the index, creating it if need be. */
  function CountFailures(index: Option<BlockIndex>, n: nat): Option<BlockIndex> {
    if n == 0 then index
    else
      var i := if index.Some? then index.value else BlockIndex(0, 0, 0);
      Some(i.(failed := i.failed + n))
  }

  function HandleTx(env: Env, b: Block, i: nat, index: Option<BlockIndex>): Handled
    requires i < |b.txs|
  {
    if Seen(env, b.txs[i]) then AnteHandle(index, b.height, true, b.own(i)) else Handled(index, Unseen)
  }

  /**
   * Transactions from position `i` on, after MsgIndex. Only failing special messages still touch
   * the index: `fails(k)` of them in transaction `k`.
   */
  function RunRest(env: Env, b: Block, i: nat, index: Option<BlockIndex>, fails: nat -> nat): Executed
    requires i <= |b.txs|
    decreases |b.txs| - i
  {
    if i == |b.txs| then Executed(index, [])
    else
      var h := HandleTx(env, b, i, index);
      var rest := RunRest(env, b, i + 1, CountFailures(h.index, fails(i)), fails);
      Executed(rest.index, [h.outcome] + rest.outcomes)
  }

  /** A call of the decorator for a transaction that is checked, simulated or proposed, not finalized. */
  datatype Call = Call(height: nat, own: Meters)

  /** What such calls leave of the index, and where their transactions end up. */
  function RunCalls(index: Option<BlockIndex>, calls: seq<Call>): Executed {
    if calls == [] then Executed(index, [])
    else
      var h := AnteHandle(index, calls[0].height, false, calls[0].own);
      var rest := RunCalls(h.index, calls[1..]);
      Executed(rest.index, [h.outcome] + rest.outcomes)
  }

  /** Outside FinalizeBlock every transaction goes on with its own meters and the index is left alone. */
  lemma {:induction false} CallsChangeNothing(index: Option<BlockIndex>, calls: seq<Call>)
    ensures RunCalls(index, calls).index == index
    ensures |RunCalls(index, calls).outcomes| == |calls|
    ensures forall k :: 0 <= k < |calls| ==> RunCalls(index, calls).outcomes[k] == Onward(calls[k].own)
  {
    if calls != [] {
      CallsChangeNothing(index, calls[1..]);
      var rest := RunCalls(index, calls[1..]);
      assert RunCalls(index, calls) == Executed(rest.index, [Onward(calls[0].own)] + rest.outcomes);
    }
  }

  /** The rest of a block with other calls before each of its transactions. */
  function RunAmong(env: Env, b: Block, i: nat, index: Option<BlockIndex>, fails: nat -> nat, others: nat -> seq<Call>): Executed
    requires i <= |b.txs|
    decreases |b.txs| - i
  {
    if i == |b.txs| then Executed(RunCalls(index, others(i)).index, [])
    else
      var h := HandleTx(env, b, i, RunCalls(index, others(i)).index);
      var rest := RunAmong(env, b, i + 1, CountFailures(h.index, fails(i)), fails, others);
      Executed(rest.index, [h.outcome] + rest.outcomes)
  }

  /** Such calls between its transactions make no difference to a block, whatever they are. */
  lemma {:induction false} OthersMakeNoDifference(env: Env, b: Block, i: nat, index: Option<BlockIndex>, fails: nat -> nat,
                                                  others: nat -> seq<Call>)
    requires i <= |b.txs|
    ensures RunAmong(env, b, i, index, fails, others) == RunRest(env, b, i, index, fails)
    decreases |b.txs| - i
  {
    hide Seen, RunCalls;
    CallsChangeNothing(index, others(i));
    if i < |b.txs| {
      OthersMakeNoDifference(env, b, i + 1, CountFailures(HandleTx(env, b, i, index).index, fails(i)), fails, others);
    }
  }

  /** How many of the transactions in `txs` the decorator sees. */
  function SeenCount(env: Env, txs: seq<bytes>): nat {
    if txs == [] then 0
    else SeenCount(env, txs[..|txs| - 1]) + (if Seen(env, txs[|txs| - 1]) then 1 else 0)
  }

  function Failures(fails: nat -> nat, i: nat, n: nat): nat
    requires i <= n
    decreases n - i
  {
    if i == n then 0 else fails(i) + Failures(fails, i + 1, n)
  }

  /** The decorator's verdict on position `k`, told by counting the transactions seen before it. */
  function Verdict(env: Env, b: Block, from: nat, ante: nat, total: nat, k: nat): Outcome
    requires from <= k < |b.txs|
  {
    if !Seen(env, b.txs[k]) then Unseen
    else if ante + SeenCount(env, b.txs[from..k]) < total then Injected(FREE)
    else Onward(b.own(k))
  }

  lemma {:induction false} SeenCountShift(env: Env, txs: seq<bytes>, i: nat, k: nat)
    requires i < k <= |txs|
    ensures SeenCount(env, txs[i..k]) == (if Seen(env, txs[i]) then 1 else 0) + SeenCount(env, txs[i + 1..k])
    decreases k
  {
    hide Seen;
    var a, b := txs[i..k], txs[i + 1..k];
    assert a[..|a| - 1] == txs[i..k - 1];
    if i + 1 == k {
      assert a == [txs[i]] && b == [] && a[..0] == [];
    } else {
      assert b[..|b| - 1] == txs[i + 1..k - 1];
      SeenCountShift(env, txs, i, k - 1);
    }
  }

  /** The counter after `seen` more transactions. */
  function Capped(ante: nat, seen: nat, total: nat): nat {
    if ante + seen < total then ante + seen else total
  }

  /** The counter never passes the total. */
  lemma {:induction false} RunRestCounter(env: Env, b: Block, i: nat, index: BlockIndex, fails: nat -> nat)
    requires i <= |b.txs| && b.height > 0 && index.ante <= index.total
    ensures RunRest(env, b, i, Some(index), fails).index
         == Some(BlockIndex(index.total, Capped(index.ante, SeenCount(env, b.txs[i..|b.txs|]), index.total),
                            index.failed + Failures(fails, i, |b.txs|)))
    decreases |b.txs| - i
  {
    hide Seen;
    var n := |b.txs|;
    if i == n {
      assert b.txs[i..n] == [];
    } else {
      var after := CountFailures(HandleTx(env, b, i, Some(index)).index, fails(i)).value;
      SeenCountShift(env, b.txs, i, n);
      RunRestCounter(env, b, i + 1, after, fails);
    }
  }

  /** Every outcome is the counting verdict. */
  lemma {:induction false} RunRestVerdict(env: Env, b: Block, i: nat, index: BlockIndex, fails: nat -> nat, k: nat)
    requires i <= k < |b.txs| && b.height > 0 && index.ante <= index.total
    ensures |RunRest(env, b, i, Some(index), fails).outcomes| == |b.txs| - i
    ensures RunRest(env, b, i, Some(index), fails).outcomes[k - i] == Verdict(env, b, i, index.ante, index.total, k)
    decreases |b.txs| - i
  {
    hide Seen;
    var h := HandleTx(env, b, i, Some(index));
    var after := CountFailures(h.index, fails(i)).value;
    if k == i {
      assert b.txs[i..i] == [];
      RunRestLength(env, b, i, Some(index), fails);
    } else {
      SeenCountShift(env, b.txs, i, k);
      RunRestVerdict(env, b, i + 1, after, fails, k);
    }
  }

  lemma {:induction false} RunRestLength(env: Env, b: Block, i: nat, index: Option<BlockIndex>, fails: nat -> nat)
    requires i <= |b.txs|
    ensures |RunRest(env, b, i, index, fails).outcomes| == |b.txs| - i
    decreases |b.txs| - i
  {
    hide Seen;
    if i < |b.txs| {
      RunRestLength(env, b, i + 1, CountFailures(HandleTx(env, b, i, index).index, fails(i)), fails);
    }
  }

  lemma {:induction false} SeenCountBound(env: Env, txs: seq<bytes>)
    ensures SeenCount(env, txs) <= |txs|
    ensures (forall i :: 0 <= i < |txs| ==> Seen(env, txs[i])) ==> SeenCount(env, txs) == |txs|
  {
    hide Seen;
    if txs != [] {
      SeenCountBound(env, txs[..|txs| - 1]);
    }
  }

  // ----- A whole block

  /** The block's injected part: MsgIndex and `total` transactions after it. */
  ghost predicate ExactlyInjected(outcomes: seq<Outcome>, total: nat, b: Block) {
    && |outcomes| == |b.txs| && total < |b.txs|
    && (forall k :: 0 <= k <= total ==> outcomes[k] == Injected(FREE))
    && (forall k :: total < k < |b.txs| ==> outcomes[k] == Unseen || outcomes[k] == Onward(b.own(k)))
  }

  /** MsgIndex runs first on an empty index and sets it; then the rest runs. */
  function RunBlock(c: Ctx, b: Block, fails: nat -> nat): Executed
    requires b.txs != []
  {
    var h := HandleTx(c.env, b, 0, c.st.index);
    var m := ReadIndex(c.env, b.txs[0]);
    var st := if m.Some? && h.outcome.Injected? then ExecIndex(c.st.(index := h.index), m.value, c.env, c.params, b.height, b.time)
              else c.st.(index := h.index);
    var rest := RunRest(c.env, b, 1, st.index, fails);
    Executed(rest.index, [h.outcome] + rest.outcomes)
  }

  /** The number of transactions injected after MsgIndex. */
  function InjectedTotal(c: Ctx, b: Block): nat
    requires Validated(c) && b.txs != [] && ReadIndex(c.env, b.txs[0]).Some?
  {
    ReadIndex(c.env, b.txs[0]).value.num + |SupplyTxs(c, b.height)|
  }

  /** The MsgIndex of an accepted block is never refused by its handler, which sets the index from it. */
  lemma {:induction false} AcceptedIndexExecutes(c: Ctx, b: Block, answer: Answer)
    requires WellFormed(c) && c.st.index.None? && b.height > 0
    requires Accepts(c, b.height, b.time, b.txs, answer)
    ensures Seen(c.env, b.txs[0])
    ensures ReadIndex(c.env, b.txs[0]).Some? && InjectedTotal(c, b) < |b.txs|
    ensures ReadIndex(c.env, b.txs[0]).value.authority == c.env.authority
    ensures IndexHandler(c.st, ReadIndex(c.env, b.txs[0]).value, c.params, b.height, b.time).Some?
    ensures IndexHandler(c.st, ReadIndex(c.env, b.txs[0]).value, c.params, b.height, b.time).value.index
         == Some(BlockIndex(InjectedTotal(c, b), 0, 0))
  {
    var p := AcceptedShape(c, b.height, b.time, b.txs, answer);
    AcceptedProgress(c, b.height, b.time, p, answer);
    var s := Seqs(c, b.height).index;
    IndexTxSeen(c, p.msg, s);
    assert b.txs[0] == Proposals.Injected(c, b.height, p)[0] == IndexTx(p.msg, s);
    assert |Proposals.Injected(c, b.height, p)| == 1 + |p.txs| + |SupplyTxs(c, b.height)|;
    assert ReadIndex(c.env, b.txs[0]).value == p.msg;
  }

  lemma {:induction false} IndexTxSeen(c: Ctx, m: MsgIndex, s: nat)
    requires WellFormed(c)
    ensures Seen(c.env, IndexTx(m, s))
  {
    var a := Any(INDEX_URL, IndexBytes(m));
    assert ConsensusAny(c.env, a);
    DecodesConsensusTx(c.env, a, s);
  }

  /** A half-consumed Ethereum block forces every accepted block to bring at least one more event. */
  lemma {:induction false} AcceptedProgress(c: Ctx, height: nat, time: int, p: Plan, answer: Answer)
    requires Validated(c) && Rebuilt(c, height, time, p.msg, answer) == Some(p)
    ensures c.st.lastSynced.Some? && c.st.offset.Some?
    ensures c.st.offset.value > 0 ==> p.msg.num > 0
  {
    hide Generated;
    if !p.msg.NoSync() && Pending(c, height, answer).Some? {
      PendingShape(c, height, answer, Pending(c, height, answer).value);
    }
  }

  /**
   * The accounting in terms of what the decorator sees: the transactions that skip the rest of the ante
   * chain are the injected ones and no other iff each of those is seen. The counter never passes its
   * total, and if all of them are seen it ends there.
   */
  lemma {:induction false} SeenAccounting(c: Ctx, b: Block, answer: Answer, fails: nat -> nat)
    requires WellFormed(c) && c.st.index.None? && b.height > 0
    requires Accepts(c, b.height, b.time, b.txs, answer)
    ensures ReadIndex(c.env, b.txs[0]).Some?
    ensures var r := RunBlock(c, b, fails);
            var total := InjectedTotal(c, b);
            && r.index.Some? && r.index.value.total == total && r.index.value.ante <= total
            && (ExactlyInjected(r.outcomes, total, b) <==> forall k :: 0 <= k <= total ==> Seen(c.env, b.txs[k]))
            && ((forall k :: 0 <= k <= total ==> Seen(c.env, b.txs[k])) ==>
                  r.index == Some(BlockIndex(total, total, Failures(fails, 1, |b.txs|))))
  {
    AcceptedIndexExecutes(c, b, answer);
    var total := InjectedTotal(c, b);
    CountedBlock(c.env, b, total, fails);
    hide Accepts, IndexHandler, ReadIndex, Seen, SupplyTxs, InjectedTotal;
    var r, rest := RunBlock(c, b, fails), RunRest(c.env, b, 1, Some(BlockIndex(total, 0, 0)), fails);
    assert r == Executed(rest.index, [Injected(FREE)] + rest.outcomes);
  }

  /** The counters an accepted block leaves, whatever the decorator sees. */
  lemma {:induction false} FinalIndex(c: Ctx, b: Block, answer: Answer, fails: nat -> nat)
    requires WellFormed(c) && c.st.index.None? && b.height > 0
    requires Accepts(c, b.height, b.time, b.txs, answer)
    ensures ReadIndex(c.env, b.txs[0]).Some?
    ensures var total := InjectedTotal(c, b);
            RunBlock(c, b, fails).index ==
              Some(BlockIndex(total, Capped(0, SeenCount(c.env, b.txs[1..|b.txs|]), total), Failures(fails, 1, |b.txs|)))
  {
    AcceptedIndexExecutes(c, b, answer);
    hide Accepts, IndexHandler, ReadIndex, Seen, SupplyTxs, InjectedTotal, SeenCount, Failures;
    var total := InjectedTotal(c, b);
    RunRestCounter(c.env, b, 1, BlockIndex(total, 0, 0), fails);
    hide RunRest;
    assert RunBlock(c, b, fails).index == RunRest(c.env, b, 1, Some(BlockIndex(total, 0, 0)), fails).index;
  }

  /** The counting argument alone, for any block whose MsgIndex announced `total` transactions. */
  lemma {:induction false} CountedBlock(env: Env, b: Block, total: nat, fails: nat -> nat)
    requires b.height > 0 && total < |b.txs| && Seen(env, b.txs[0])
    ensures var rest := RunRest(env, b, 1, Some(BlockIndex(total, 0, 0)), fails);
            var outcomes := [Injected(FREE)] + rest.outcomes;
            && rest.index.Some? && rest.index.value.total == total && rest.index.value.ante <= total
            && (ExactlyInjected(outcomes, total, b) <==> forall k :: 0 <= k <= total ==> Seen(env, b.txs[k]))
            && ((forall k :: 0 <= k <= total ==> Seen(env, b.txs[k])) ==>
                  rest.index == Some(BlockIndex(total, total, Failures(fails, 1, |b.txs|))))
  {
    hide Seen;
    var rest := RunRest(env, b, 1, Some(BlockIndex(total, 0, 0)), fails);
    var outcomes := [Injected(FREE)] + rest.outcomes;
    RunRestCounter(env, b, 1, BlockIndex(total, 0, 0), fails);
    RunRestLength(env, b, 1, Some(BlockIndex(total, 0, 0)), fails);
    forall k | 1 <= k < |b.txs|
      ensures outcomes[k] == Verdict(env, b, 1, 0, total, k)
    {
      RunRestVerdict(env, b, 1, BlockIndex(total, 0, 0), fails, k);
      assert outcomes[k] == rest.outcomes[k - 1];
    }
    if forall k :: 0 <= k <= total ==> Seen(env, b.txs[k]) {
      AllSeen(env, b, total);
      assert ExactlyInjected(outcomes, total, b);
    } else {
      var k :| 0 <= k <= total && !Seen(env, b.txs[k]);
      assert outcomes[k] == Unseen;
    }
  }

  lemma {:induction false} AllSeen(env: Env, b: Block, total: nat)
    requires total < |b.txs| && forall k :: 0 <= k <= total ==> Seen(env, b.txs[k])
    ensures forall k :: 1 <= k <= total ==> SeenCount(env, b.txs[1..k]) < total
    ensures forall k :: total < k <= |b.txs| ==> SeenCount(env, b.txs[1..k]) >= total
  {
    hide Seen;
    forall k | 1 <= k <= |b.txs|
      ensures k <= total ==> SeenCount(env, b.txs[1..k]) < total
      ensures k > total ==> SeenCount(env, b.txs[1..k]) >= total
    {
      SeenCountBound(env, b.txs[1..k]);
      if k > total {
        SeenPrefix(env, b.txs, total + 1, k);
        SeenCountBound(env, b.txs[1..total + 1]);
      }
    }
  }

  lemma {:induction false} SeenPrefix(env: Env, txs: seq<bytes>, j: nat, k: nat)
    requires 1 <= j <= k <= |txs|
    ensures SeenCount(env, txs[1..j]) <= SeenCount(env, txs[1..k])
    decreases k
  {
    hide Seen;
    if j < k {
      var a := txs[1..k];
      assert a[..|a| - 1] == txs[1..k - 1];
      SeenPrefix(env, txs, j, k - 1);
    }
  }

  // ----- Which injected transactions are seen

  /** The decorator sees what an event was translated to iff the event is not hollow. */
  lemma {:induction false} SeenIffNotHollow(env: Env, params: Params, blocked: set<string>, e: Event, block: nat, s: nat)
    requires Faithful(env) && TranslateOne(env, params, blocked, e, block, s).Some?
    ensures Seen(env, TranslateOne(env, params, blocked, e, block, s).value) <==> !Hollow(env, params, blocked, e, s)
  {
    hide RawTx, SkipAny, TranslateOne, Valid, TxSize;
    TranslationOutcome(env, params, blocked, e, block, s);
    var tx := TranslateOne(env, params, blocked, e, block, s).value;
    if Encodable(env, params, e, s) && Authorised(env, blocked, e) {
      DecodesEventTx(env, e, s);
      if e.eventType == DEPOSIT {
        assert ConsensusAny(env, env.parseDeposit(e.data).value.message);
      }
    } else {
      var reason: bytes :| tx == SkipTx(env.authority, reason, block, e, s);
      var a := SkipAny(env.authority, reason, block, e);
      assert ConsensusAny(env, a);
      DecodesConsensusTx(env, a, s);
    }
  }

  /**
   * Why authentication validates: a transaction with a message that fails ValidateBasic would never be seen,
   * so the event is skipped instead, and the notice is seen.
   */
  lemma {:induction false} InvalidIsSkipped(env: Env, params: Params, blocked: set<string>, e: Event, block: nat, s: nat, m: Any)
    requires Faithful(env) && e.eventType == AUTHORIZE && Messages(env, e).Some? && m in Messages(env, e).value && !env.validBasic(m)
    ensures !Seen(env, RawTx(Messages(env, e).value, s))
    ensures var r := TranslateOne(env, params, blocked, e, block, s);
            r.Some? ==> Seen(env, r.value) && r.value != RawTx(Messages(env, e).value, s)
  {
    hide RawTx, TranslateOne;
    DecodesEventTx(env, e, s);
    if TranslateOne(env, params, blocked, e, block, s).Some? {
      SeenIffNotHollow(env, params, blocked, e, block, s);
    }
  }

  /** A hollow event that does not halt production travels as its own transaction, which the decorator never sees. */
  lemma {:induction false} HollowIsUnseen(env: Env, params: Params, blocked: set<string>, e: Event, block: nat, s: nat)
    requires Faithful(env) && Hollow(env, params, blocked, e, s) && !Halting(env, params, e, s)
    ensures TranslateOne(env, params, blocked, e, block, s) == Some(RawTx(Messages(env, e).value, s))
    ensures !Seen(env, RawTx(Messages(env, e).value, s))
  {
    hide RawTx, SkipAny, TxSize, Seen;
    TranslationOutcome(env, params, blocked, e, block, s);
    SeenIffNotHollow(env, params, blocked, e, block, s);
  }

  /** The `j`-th event not yet processed is hollow at the sequence it travels with. */
  ghost predicate HollowAt(c: Ctx, height: nat, answer: Answer, j: nat)
    requires Validated(c) && c.st.offset.Some?
  {
    && c.blocked.Some? && c.st.offset.value + j < |answer.events|
    && Hollow(c.env, c.params, c.blocked.value, answer.events[c.st.offset.value + j], EventSeq(c, height, j))
  }

  /** How many of the first `n` events not yet processed are hollow. */
  ghost function HollowCount(c: Ctx, height: nat, answer: Answer, n: nat): nat
    requires Validated(c) && c.st.offset.Some?
  {
    if n == 0 then 0 else HollowCount(c, height, answer, n - 1) + (if HollowAt(c, height, answer, n - 1) then 1 else 0)
  }

  lemma {:induction false} HollowCountZero(c: Ctx, height: nat, answer: Answer, n: nat)
    requires Validated(c) && c.st.offset.Some?
    ensures HollowCount(c, height, answer, n) == 0 <==> forall j :: 0 <= j < n ==> !HollowAt(c, height, answer, j)
  {
    hide HollowAt;
    if n > 0 {
      HollowCountZero(c, height, answer, n - 1);
    }
  }

  lemma {:induction false} EventIsSeen(c: Ctx, height: nat, answer: Answer, pending: Plan, j: nat)
    requires WellFormed(c) && Pending(c, height, answer) == Some(pending) && j < |pending.txs|
    ensures c.st.offset.Some? && (Seen(c.env, pending.txs[j]) <==> !HollowAt(c, height, answer, j))
  {
    hide Seen, Pending, WellFormed, EventSeq, TranslateOne, Hollow, Validated, Faithful;
    WellFormedIsFaithful(c);
    PendingAt(c, height, answer, pending, j);
    var i := c.st.offset.value + j;
    SeenIffNotHollow(c.env, c.params, c.blocked.value, answer.events[i], c.st.lastSynced.value + 1, EventSeq(c, height, j));
  }

  /** Of the injected part, everything is seen but the hollow events. */
  lemma {:induction false} InjectedIsSeen(c: Ctx, height: nat, time: int, p: Plan, answer: Answer, k: nat)
    requires WellFormed(c) && Rebuilt(c, height, time, p.msg, answer) == Some(p)
    requires k < |Proposals.Injected(c, height, p)|
    ensures c.st.offset.Some?
    ensures Seen(c.env, Proposals.Injected(c, height, p)[k]) <==> !(1 <= k <= |p.txs| && HollowAt(c, height, answer, k - 1))
  {
    hide Seen, Rebuilt, Pending, WellFormed, Validated, HollowAt, IndexTx, SupplyDeltaTx;
    WellFormedIsFaithful(c);
    AcceptedProgress(c, height, time, p, answer);
    if k == 0 {
      IndexTxSeen(c, p.msg, Seqs(c, height).index);
    } else if k <= |p.txs| {
      RebuiltIsPrefix(c, height, time, p, answer);
      EventIsSeen(c, height, answer, Pending(c, height, answer).value, k - 1);
    } else {
      SupplyTxSeen(c, Seqs(c, height).supplyDelta);
    }
  }

  /** In an accepted block, all injected transactions are seen but the hollow events of its segment. */
  lemma {:induction false} InjectedAreSeen(c: Ctx, b: Block, answer: Answer)
    requires WellFormed(c) && Accepts(c, b.height, b.time, b.txs, answer)
    ensures ReadIndex(c.env, b.txs[0]).Some? && InjectedTotal(c, b) < |b.txs| && c.st.offset.Some?
    ensures forall k :: 0 <= k <= InjectedTotal(c, b) ==>
              (Seen(c.env, b.txs[k]) <==>
               !(1 <= k <= ReadIndex(c.env, b.txs[0]).value.num && HollowAt(c, b.height, answer, k - 1)))
  {
    hide Accepts, WellFormed, Validated, Seen, HollowAt, Rebuilt, ReadIndex;
    WellFormedIsFaithful(c);
    var p := AcceptedShape(c, b.height, b.time, b.txs, answer);
    AcceptedProgress(c, b.height, b.time, p, answer);
    var inj := Proposals.Injected(c, b.height, p);
    assert |inj| == 1 + |p.txs| + |SupplyTxs(c, b.height)| == 1 + InjectedTotal(c, b);
    forall k | 0 <= k < |inj|
      ensures Seen(c.env, b.txs[k]) <==> !(1 <= k <= p.msg.num && HollowAt(c, b.height, answer, k - 1))
    {
      assert b.txs[k] == inj[k];
      InjectedIsSeen(c, b.height, b.time, p, answer, k);
    }
  }

  lemma {:induction false} SupplyTxSeen(c: Ctx, s: nat)
    requires WellFormed(c)
    ensures Seen(c.env, SupplyDeltaTx(c.env.authority, s))
  {
    assert ConsensusAny(c.env, SupplyDeltaAny(c.env.authority));
    DecodesConsensusTx(c.env, SupplyDeltaAny(c.env.authority), s);
  }

  // ----- The accounting, in terms of events

  /**
   * Injected-transaction accounting, exact: in an accepted block, the transactions that skip the rest
   * of the ante chain are MsgIndex, the events and the supply delta -- those Process compared byte by
   * byte -- and no other, if and only if none of the events it relays is hollow.
   */
  lemma {:induction false} Accounting(c: Ctx, b: Block, answer: Answer, fails: nat -> nat)
    requires WellFormed(c) && c.st.index.None? && b.height > 0
    requires Accepts(c, b.height, b.time, b.txs, answer)
    ensures ReadIndex(c.env, b.txs[0]).Some? && c.st.offset.Some?
    ensures var r, total := RunBlock(c, b, fails), InjectedTotal(c, b);
            && r.index.Some? && r.index.value.total == total && r.index.value.ante <= total
            && (ExactlyInjected(r.outcomes, total, b) <==>
                  forall j :: 0 <= j < ReadIndex(c.env, b.txs[0]).value.num ==> !HollowAt(c, b.height, answer, j))
  {
    hide Accepts, WellFormed, Validated, Seen, HollowAt, ReadIndex, RunBlock, ExactlyInjected, SupplyTxs;
    WellFormedIsFaithful(c);
    SeenAccounting(c, b, answer, fails);
    InjectedAreSeen(c, b, answer);
    var num, total := ReadIndex(c.env, b.txs[0]).value.num, InjectedTotal(c, b);
    if forall k :: 0 <= k <= total ==> Seen(c.env, b.txs[k]) {
      forall j | 0 <= j < num
        ensures !HollowAt(c, b.height, answer, j)
      {
        assert Seen(c.env, b.txs[j + 1]);
      }
    }
  }

  lemma {:induction false} SeenCountSplit(env: Env, txs: seq<bytes>, i: nat, m: nat, k: nat)
    requires i <= m <= k <= |txs|
    ensures SeenCount(env, txs[i..k]) == SeenCount(env, txs[i..m]) + SeenCount(env, txs[m..k])
    decreases k
  {
    hide Seen;
    if m == k {
      assert txs[m..k] == [];
    } else {
      var a, b := txs[i..k], txs[m..k];
      assert a[..|a| - 1] == txs[i..k - 1] && b[..|b| - 1] == txs[m..k - 1];
      SeenCountSplit(env, txs, i, m, k - 1);
    }
  }

  lemma {:induction false} SeenCountLast(env: Env, txs: seq<bytes>, i: nat, k: nat)
    requires i <= k < |txs|
    ensures SeenCount(env, txs[i..k + 1]) == SeenCount(env, txs[i..k]) + (if Seen(env, txs[k]) then 1 else 0)
  {
    hide Seen;
    var a := txs[i..k + 1];
    assert a[..|a| - 1] == txs[i..k] && a[|a| - 1] == txs[k];
  }

  /** Of the first `k` transactions after MsgIndex, all injected, as many are missed as are hollow. */
  lemma {:induction false} InjectedSeenCount(c: Ctx, b: Block, answer: Answer, k: nat)
    requires WellFormed(c) && Accepts(c, b.height, b.time, b.txs, answer)
    requires ReadIndex(c.env, b.txs[0]).Some? && c.st.offset.Some? && k <= InjectedTotal(c, b) < |b.txs|
    ensures var num := ReadIndex(c.env, b.txs[0]).value.num;
            SeenCount(c.env, b.txs[1..k + 1]) + HollowCount(c, b.height, answer, if k <= num then k else num) == k
    decreases k
  {
    hide Accepts, WellFormed, Validated, Seen, HollowAt, ReadIndex, SeenCount, SupplyTxs;
    WellFormedIsFaithful(c);
    if k == 0 {
      assert b.txs[1..1] == [];
      NoneSeen(c.env);
    } else {
      InjectedSeenCount(c, b, answer, k - 1);
      InjectedAreSeen(c, b, answer);
      SeenCountLast(c.env, b.txs, 1, k);
    }
  }

  lemma NoneSeen(env: Env)
    ensures SeenCount(env, []) == 0
  {
  }

  /**
   * And what happens otherwise: of the transactions after the injected part that are seen, the first few
   * skip the ante chain in the place of the hollow events, as many as there are of those; all others go
   * on with their own gas meters.
   */
  lemma {:induction false} NativeOutcome(c: Ctx, b: Block, answer: Answer, fails: nat -> nat, k: nat)
    requires WellFormed(c) && c.st.index.None? && b.height > 0
    requires Accepts(c, b.height, b.time, b.txs, answer)
    requires ReadIndex(c.env, b.txs[0]).Some? && InjectedTotal(c, b) < k < |b.txs|
    ensures c.st.offset.Some?
    ensures var hollow := HollowCount(c, b.height, answer, ReadIndex(c.env, b.txs[0]).value.num);
            var r := RunBlock(c, b, fails);
            && |r.outcomes| == |b.txs|
            && r.outcomes[k] == (if !Seen(c.env, b.txs[k]) then Unseen
                                 else if SeenCount(c.env, b.txs[InjectedTotal(c, b) + 1..k]) < hollow then Injected(FREE)
                                 else Onward(b.own(k)))
  {
    hide Accepts, WellFormed, Validated, Seen, HollowAt, HollowCount, ReadIndex, SupplyTxs, RunBlock, SeenCount, RunRest;
    hide InjectedTotal;
    WellFormedIsFaithful(c);
    SeenBefore(c, b, answer, k);
    RunRestVerdict(c.env, b, 1, BlockIndex(InjectedTotal(c, b), 0, 0), fails, k);
    RunBlockRest(c, b, answer, fails);
  }

  /** Before a native transaction fewer were seen than injected iff fewer native ones were than events are hollow. */
  lemma {:induction false} SeenBefore(c: Ctx, b: Block, answer: Answer, k: nat)
    requires WellFormed(c) && Accepts(c, b.height, b.time, b.txs, answer)
    requires ReadIndex(c.env, b.txs[0]).Some? && InjectedTotal(c, b) < k <= |b.txs|
    ensures c.st.offset.Some?
    ensures var hollow := HollowCount(c, b.height, answer, ReadIndex(c.env, b.txs[0]).value.num);
            SeenCount(c.env, b.txs[1..k]) + hollow == InjectedTotal(c, b) + SeenCount(c.env, b.txs[InjectedTotal(c, b) + 1..k])
  {
    hide Accepts, WellFormed, Validated, Seen, HollowAt, HollowCount, ReadIndex, SupplyTxs, SeenCount;
    WellFormedIsFaithful(c);
    InjectedAreSeen(c, b, answer);
    var total := InjectedTotal(c, b);
    InjectedSeenCount(c, b, answer, total);
    SeenCountSplit(c.env, b.txs, 1, total + 1, k);
  }

  lemma {:induction false} RunBlockRest(c: Ctx, b: Block, answer: Answer, fails: nat -> nat)
    requires WellFormed(c) && c.st.index.None? && b.height > 0
    requires Accepts(c, b.height, b.time, b.txs, answer)
    ensures ReadIndex(c.env, b.txs[0]).Some?
    ensures var rest := RunRest(c.env, b, 1, Some(BlockIndex(InjectedTotal(c, b), 0, 0)), fails);
            RunBlock(c, b, fails) == Executed(rest.index, [Injected(FREE)] + rest.outcomes)
  {
    AcceptedIndexExecutes(c, b, answer);
    hide Accepts, IndexHandler, ReadIndex, Seen, SupplyTxs, InjectedTotal, RunRest, WellFormed, Validated;
  }
}
