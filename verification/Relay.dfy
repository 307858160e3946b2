/** Runs of accepted blocks: every Ethereum event is relayed exactly once, in order. */
module Relay {
  import opened Base
  import opened TxWire
  import opened MsgIndexes
  import opened Events
  import opened Keeper
  import opened Proposals
  import opened ProposalTheorems
  import opened Ante

  /** The recognised events of every Ethereum block, in order. */
  type Truth = nat -> seq<Event>

  /** A sidecar that either fails without events or tells the truth about block `n`. */
  ghost predicate Honest(answer: Answer, truth: Truth, n: nat) {
    if answer.failed then answer.events == [] else answer.events == truth(n)
  }

  /** One committed block: the state it was judged in, and the answer of a sidecar that accepted it. */
  datatype Step = Step(c: Ctx, b: Block, answer: Answer)

  /** The MsgIndex of the block. */
  function IndexOf(s: Step): MsgIndex
    requires s.b.txs != [] && ReadIndex(s.c.env, s.b.txs[0]).Some?
  {
    ReadIndex(s.c.env, s.b.txs[0]).value
  }

  /** A verifier in this state accepted the block. */
  ghost predicate Accepted(s: Step) {
    && WellFormed(s.c) && s.c.st.index.None? && s.b.height > 0
    && Accepts(s.c, s.b.height, s.b.time, s.b.txs, s.answer)
    && s.c.st.lastSynced.Some? && s.c.st.offset.Some?
  }

  /** It accepted the block with an honest answer. */
  ghost predicate Committed(truth: Truth, s: Step) {
    Accepted(s) && Honest(s.answer, truth, s.c.st.lastSynced.value + 1)
  }

  /** The state the block leaves: its MsgIndex executed, and the index removed at its end. */
  function After(s: Step): State
    requires s.b.txs != [] && ReadIndex(s.c.env, s.b.txs[0]).Some?
  {
    ExecIndex(s.c.st, IndexOf(s), s.c.env, s.c.params, s.b.height, s.b.time).(index := None)
  }

  /** The event transactions of the block. */
  function EventTxs(s: Step): seq<bytes>
    requires s.b.txs != [] && ReadIndex(s.c.env, s.b.txs[0]).Some? && 1 + IndexOf(s).num <= |s.b.txs|
  {
    s.b.txs[1..1 + IndexOf(s).num]
  }

  ghost predicate CarriesEvent(env: Env, tx: bytes, e: Event) {
    exists block: nat, s: nat :: Carries(env, tx, e, block, s)
  }

  /** Transaction by transaction, `txs` carries `events`. */
  ghost predicate CarriesAll(env: Env, txs: seq<bytes>, events: seq<Event>) {
    |txs| == |events| && forall i :: 0 <= i < |txs| ==> CarriesEvent(env, txs[i], events[i])
  }

  // ----- One block

  /**
   * Who acts in an accepted block: event transaction `i` is the deposit's own message, or a notice that an
   * authorisation is skipped, or the messages of one whose every signer is the address its sender maps to.
   */
  lemma {:induction false} RelayedIsSigned(s: Step, i: nat)
    requires Accepted(s) && s.b.txs != [] && ReadIndex(s.c.env, s.b.txs[0]).Some? && i < IndexOf(s).num
    ensures s.c.blocked.Some? && s.c.st.offset.value + i < |s.answer.events| && 1 + i < |s.b.txs| && Validated(s.c)
    ensures var e, tx := s.answer.events[s.c.st.offset.value + i], s.b.txs[1 + i];
            var d := s.c.env.decode(tx);
            && d.Some?
            && (|| (e.eventType == DEPOSIT && s.c.env.parseDeposit(e.data).Some?
                    && d.value.msgs == [s.c.env.parseDeposit(e.data).value.message])
                || (e.eventType == AUTHORIZE && Skipped(s.c.env, e, s.c.st.lastSynced.value + 1, d.value.msgs))
                || (e.eventType == AUTHORIZE && Signed(s.c.env, s.c.blocked.value, e, d.value.msgs)))
  {
    hide Accepts, WellFormed, Validated, ReadIndex, Rebuilt, Pending, TranslateOne, Faithful, Signed, Skipped, RawTx, Seqs, EventSeq;
    WellFormedIsFaithful(s.c);
    var p := AcceptedShape(s.c, s.b.height, s.b.time, s.b.txs, s.answer);
    RebuiltIsPrefix(s.c, s.b.height, s.b.time, p, s.answer);
    var pending := Pending(s.c, s.b.height, s.answer).value;
    PendingAt(s.c, s.b.height, s.answer, pending, i);
    assert s.b.txs[1 + i] == Proposals.Injected(s.c, s.b.height, p)[1 + i] == p.txs[i];
    TranslationIsSigned(s.c.env, s.c.params, s.c.blocked.value, s.answer.events[s.c.st.offset.value + i],
                        s.c.st.lastSynced.value + 1, EventSeq(s.c, s.b.height, i));
  }

  /** MsgSupplyDelta is injected exactly at the heights its period divides, right after the events, by the authority. */
  lemma {:induction false} SupplyDeltaSchedule(s: Step)
    requires Accepted(s)
    ensures s.b.txs != [] && ReadIndex(s.c.env, s.b.txs[0]).Some? && s.c.params.supplyDeltaPeriod > 0
    ensures var n, due := IndexOf(s).num, s.b.height % s.c.params.supplyDeltaPeriod == 0;
            && InjectedTotal(s.c, s.b) == n + (if due then 1 else 0)
            && (due ==> 1 + n < |s.b.txs| && s.b.txs[1 + n] == RawTx([SupplyDeltaAny(s.c.env.authority)], s.c.st.lastSequence + 2))
  {
    hide Accepts, ReadIndex, Faithful, RawTx, Rebuilt;
    WellFormedIsFaithful(s.c);
    var p := AcceptedShape(s.c, s.b.height, s.b.time, s.b.txs, s.answer);
    var inj := Proposals.Injected(s.c, s.b.height, p);
    if SupplyTxs(s.c, s.b.height) != [] {
      assert s.b.txs[1 + |p.txs|] == inj[1 + |p.txs|];
    }
  }

  /** One notice that the event of this Ethereum block is skipped. */
  ghost predicate Skipped(env: Env, e: Event, block: nat, msgs: seq<Any>) {
    exists reason: bytes :: msgs == [SkipAny(env.authority, reason, block, e)]
  }

  /** The messages of an authorisation, each valid and signed by nobody but the unblocked address its sender maps to. */
  ghost predicate Signed(env: Env, blocked: set<string>, e: Event, msgs: seq<Any>) {
    && env.parseAuthorize(e.data).Some? && env.parseAuthorize(e.data).value.messages == Some(msgs)
    && var mapped := env.mappedAddress(env.parseAuthorize(e.data).value.sender);
    && mapped.Some?
    && forall m | m in msgs ::
         && env.validBasic(m)
         && env.signers(m).Some?
         && forall x | x in env.signers(m).value :: x == mapped.value && x !in blocked
  }

  lemma {:induction false} TranslationIsSigned(env: Env, params: Params, blocked: set<string>, e: Event, block: nat, s: nat)
    requires Faithful(env) && TranslateOne(env, params, blocked, e, block, s).Some?
    ensures var d := env.decode(TranslateOne(env, params, blocked, e, block, s).value);
            && d.Some?
            && (|| (e.eventType == DEPOSIT && env.parseDeposit(e.data).Some? && d.value.msgs == [env.parseDeposit(e.data).value.message])
                || (e.eventType == AUTHORIZE && Skipped(env, e, block, d.value.msgs))
                || (e.eventType == AUTHORIZE && Signed(env, blocked, e, d.value.msgs)))
  {
    hide RawTx, SkipAny, TranslateOne, Faithful, BlockData, Ascii, Authorised;
    if e.eventType == DEPOSIT {
      DepositOutcome(env, params, blocked, e, block, s);
    } else if e.eventType == AUTHORIZE {
      AuthorizeOutcome(env, params, blocked, e, block, s);
      var p := env.parseAuthorize(e.data).value;
      if p.messages.Some? && |BlockData([RawTx(p.messages.value, s)])| <= params.maxEventBytes && Authorised(env, blocked, e) {
        AuthorisedIff(env, blocked, e);
      } else {
        var reason := if p.messages.Some? && |BlockData([RawTx(p.messages.value, s)])| <= params.maxEventBytes
                      then Ascii("unauthorized event") else env.encodeError(e);
        var a := SkipAny(env.authority, reason, block, e);
        assert ConsensusAny(env, a);
        DecodesConsensusTx(env, a, s);
      }
    } else {
      OtherEventsHalt(env, params, blocked, e, block, s);
    }
  }

  /** The state an accepted block leaves: the handler never refuses its MsgIndex. */
  lemma {:induction false} AcceptedAfter(s: Step)
    requires Accepted(s)
    ensures s.b.txs != [] && ReadIndex(s.c.env, s.b.txs[0]).Some? && 1 + IndexOf(s).num <= |s.b.txs|
    ensures var l, off, n := s.c.st.lastSynced.value, s.c.st.offset.value, IndexOf(s).num;
            && (off > 0 ==> n > 0)
            && After(s) == State(Some(if IndexOf(s).newBlock then l + 1 else l),
                                 Some(if IndexOf(s).newBlock then 0 else off + n),
                                 if IndexOf(s).newBlock || n > 0 then Some(s.b.time) else s.c.st.lastUpdate,
                                 s.c.st.lastSequence + n + |SupplyTxs(s.c, s.b.height)| + 1, None)
  {
    hide Accepts, ReadIndex, Rebuilt, WellFormed, Seen, Validated, IndexHandler, SupplyTxs, Proposals.Injected;
    WellFormedIsFaithful(s.c);
    AcceptedIndexExecutes(s.c, s.b, s.answer);
    var p := AcceptedShape(s.c, s.b.height, s.b.time, s.b.txs, s.answer);
    AcceptedProgress(s.c, s.b.height, s.b.time, p, s.answer);
    HandlerGuards(s.c.st, p.msg, s.c.params, s.b.height, s.b.time);
    SupplyCount(s.c, s.b.height);
  }

  lemma SupplyCount(c: Ctx, height: nat)
    requires Validated(c)
    ensures |SupplyTxs(c, height)| == if height % c.params.supplyDeltaPeriod == 0 then 1 else 0
  {
  }

  /**
   * The end of an accepted block: its checks pass, and leave that state, iff no special message failed and
   * at least as many transactions after the injected part were seen as there are hollow events in it.
   */
  lemma {:induction false} BlockEnds(s: Step, fails: nat -> nat)
    requires Accepted(s)
    ensures s.b.txs != [] && ReadIndex(s.c.env, s.b.txs[0]).Some? && InjectedTotal(s.c, s.b) < |s.b.txs|
    ensures var executed := ExecIndex(s.c.st, IndexOf(s), s.c.env, s.c.params, s.b.height, s.b.time);
            var ended := EndBlock(executed.(index := RunBlock(s.c, s.b, fails).index));
            var native := s.b.txs[InjectedTotal(s.c, s.b) + 1..|s.b.txs|];
            && (ended.Some? <==> SeenCount(s.c.env, native) >= HollowCount(s.c, s.b.height, s.answer, IndexOf(s).num)
                                 && Failures(fails, 1, |s.b.txs|) == 0)
            && (ended.Some? ==> ended.value == After(s))
  {
    hide Accepts, ReadIndex, WellFormed, Validated, RunBlock, SeenCount, Failures, ExecIndex, HollowCount, SupplyTxs;
    WellFormedIsFaithful(s.c);
    AcceptedAfter(s);
    FinalIndex(s.c, s.b, s.answer, fails);
    InjectedAreSeen(s.c, s.b, s.answer);
    SeenBefore(s.c, s.b, s.answer, |s.b.txs|);
  }

  /**
   * What a committed block does to the relay position (L, offset): it carries the next events of
   * block L+1, at least one if that block is half consumed; it announces a full sync only when no
   * event is left, and a partial one only when some are.
   */
  lemma {:induction false} CommittedStep(truth: Truth, s: Step)
    requires Committed(truth, s)
    ensures s.b.txs != [] && ReadIndex(s.c.env, s.b.txs[0]).Some? && 1 + IndexOf(s).num <= |s.b.txs|
    ensures var off, n := s.c.st.offset.value, IndexOf(s).num;
            var events := truth(s.c.st.lastSynced.value + 1);
            && (off > 0 ==> n > 0 && off < |events|)
            && (n > 0 ==> off + n <= |events|)
            && CarriesAll(s.c.env, EventTxs(s), if n == 0 then [] else events[off..off + n])
            && (IndexOf(s).newBlock ==> off + n == |events|)
            && (!IndexOf(s).newBlock && n > 0 ==> off + n < |events|)
  {
    hide Accepts, ReadIndex, WellFormed, Validated, CarriesEvent, After;
    AcceptedAfter(s);
    if !IndexOf(s).NoSync() {
      SyncedStep(truth, s);
    }
  }

  lemma {:induction false} SyncedStep(truth: Truth, s: Step)
    requires Committed(truth, s)
    requires s.b.txs != [] && ReadIndex(s.c.env, s.b.txs[0]).Some? && 1 + IndexOf(s).num <= |s.b.txs|
    requires !IndexOf(s).NoSync()
    ensures var off, n := s.c.st.offset.value, IndexOf(s).num;
            var events := truth(s.c.st.lastSynced.value + 1);
            && off + n <= |events| && (off > 0 ==> off < |events|)
            && CarriesAll(s.c.env, EventTxs(s), events[off..off + n])
            && (IndexOf(s).newBlock <==> off + n == |events|)
            && (n == 0 ==> IndexOf(s).newBlock)
  {
    hide Accepts, Carries, ReadIndex, Pending, WellFormed, Validated, EventSeq;
    WellFormedIsFaithful(s.c);
    var pending, n := Soundness(s.c, s.b.height, s.b.time, s.b.txs, s.answer);
    PendingShape(s.c, s.b.height, s.answer, pending);
    var off := s.c.st.offset.value;
    var events := truth(s.c.st.lastSynced.value + 1);
    assert IndexOf(s).num == n;
    assert !s.answer.failed;
    forall i | 0 <= i < n
      ensures CarriesEvent(s.c.env, EventTxs(s)[i], events[off..off + n][i])
    {
      PendingCarries(s.c, s.b.height, s.answer, pending, i);
      assert EventTxs(s)[i] == pending.txs[..n][i] == pending.txs[i];
      assert events[off..off + n][i] == events[off + i];
    }
  }

  // ----- Runs

  /** `b` was judged in the state `a` left, on the same chain. */
  ghost predicate Follows(truth: Truth, a: Step, b: Step)
    requires Committed(truth, a)
  {
    AcceptedAfter(a);
    b.c.env == a.c.env && b.c.st == After(a)
  }

  /** Consecutive committed blocks of one chain, whatever the parameters, proposers and validators in between. */
  ghost predicate Run(truth: Truth, steps: seq<Step>) {
    && (forall i :: 0 <= i < |steps| ==> Committed(truth, steps[i]))
    && (forall i, j :: 0 <= i < j < |steps| && j == i + 1 ==> Follows(truth, steps[i], steps[j]))
  }

  /** The Ethereum log after block `a`, up to and including block `b`. */
  function Log(truth: Truth, a: nat, b: nat): seq<Event>
    requires a <= b
  {
    if a == b then [] else Log(truth, a, b - 1) + truth(b)
  }

  /** Everything before relay position (l, off), counted from the end of block `from`. */
  function Before(truth: Truth, from: nat, l: nat, off: nat): seq<Event>
    requires from <= l && off <= |truth(l + 1)|
  {
    Log(truth, from, l) + truth(l + 1)[..off]
  }

  /** The state holds a relay position: the next Ethereum block, and how many of its events are done. */
  ghost predicate Positioned(truth: Truth, s: State) {
    s.lastSynced.Some? && s.offset.Some? && s.offset.value <= |truth(s.lastSynced.value + 1)|
  }

  /** `slice` is exactly the part of the Ethereum log between the relay positions of two states. */
  ghost predicate Spans(truth: Truth, a: State, b: State, slice: seq<Event>) {
    && Positioned(truth, a) && Positioned(truth, b)
    && a.lastSynced.value <= b.lastSynced.value
    && Before(truth, a.lastSynced.value, b.lastSynced.value, b.offset.value)
       == truth(a.lastSynced.value + 1)[..a.offset.value] + slice
  }

  lemma {:induction false} LogConcat(truth: Truth, a: nat, b: nat, c: nat)
    requires a <= b <= c
    ensures Log(truth, a, c) == Log(truth, a, b) + Log(truth, b, c)
  {
    if b < c {
      LogConcat(truth, a, b, c - 1);
      assert Log(truth, a, b) + Log(truth, b, c - 1) + truth(c) == Log(truth, a, b) + (Log(truth, b, c - 1) + truth(c));
    }
  }

  lemma {:induction false} SpansTransitive(truth: Truth, a: State, b: State, c: State, x: seq<Event>, y: seq<Event>)
    requires Spans(truth, a, b, x) && Spans(truth, b, c, y)
    ensures Spans(truth, a, c, x + y)
  {
    var la, lb, lc := a.lastSynced.value, b.lastSynced.value, c.lastSynced.value;
    var ta, tb, tc := truth(la + 1)[..a.offset.value], truth(lb + 1)[..b.offset.value], truth(lc + 1)[..c.offset.value];
    LogConcat(truth, la, lb, lc);
    calc {
      Log(truth, la, lc) + tc;
      Log(truth, la, lb) + (Log(truth, lb, lc) + tc);
      Log(truth, la, lb) + (tb + y);
      (Log(truth, la, lb) + tb) + y;
      (ta + x) + y;
      ta + (x + y);
    }
  }

  /** The state a run ends in. */
  ghost function FinalState(truth: Truth, steps: seq<Step>): State
    requires Run(truth, steps) && steps != []
  {
    AcceptedAfter(steps[|steps| - 1]);
    After(steps[|steps| - 1])
  }

  lemma {:induction false} FinalIsAfter(truth: Truth, steps: seq<Step>)
    requires Run(truth, steps) && steps != []
    ensures var s := steps[|steps| - 1];
            && s.b.txs != [] && ReadIndex(s.c.env, s.b.txs[0]).Some?
            && FinalState(truth, steps) == After(s)
  {
    hide Accepted, Honest, After, ReadIndex;
    AcceptedAfter(steps[|steps| - 1]);
  }

  /** All event transactions of the run, in block order. */
  ghost function Relayed(truth: Truth, steps: seq<Step>): seq<bytes>
    requires Run(truth, steps)
  {
    if steps == [] then []
    else
      var n := |steps| - 1;
      CommittedStep(truth, steps[n]);
      RunPrefix(truth, steps);
      Relayed(truth, steps[..n]) + EventTxs(steps[n])
  }

  lemma {:induction false} RunPrefix(truth: Truth, steps: seq<Step>)
    requires Run(truth, steps) && steps != []
    ensures Run(truth, steps[..|steps| - 1])
  {
    hide Committed, Follows;
  }

  lemma {:induction false} RelayedLast(truth: Truth, steps: seq<Step>)
    requires Run(truth, steps) && steps != []
    ensures var n := |steps| - 1;
            && steps[n].b.txs != [] && ReadIndex(steps[n].c.env, steps[n].b.txs[0]).Some?
            && 1 + IndexOf(steps[n]).num <= |steps[n].b.txs| && Run(truth, steps[..n])
            && Relayed(truth, steps) == Relayed(truth, steps[..n]) + EventTxs(steps[n])
            && (n == 0 ==> Relayed(truth, steps) == EventTxs(steps[n]))
  {
    hide Committed, After, ReadIndex, EventTxs;
    var n := |steps| - 1;
    CommittedStep(truth, steps[n]);
    RunPrefix(truth, steps);
    if n == 0 {
      assert steps[..n] == [];
      assert [] + EventTxs(steps[n]) == EventTxs(steps[n]);
    }
  }

  lemma {:induction false} CarriesConcat(env: Env, a: seq<bytes>, x: seq<Event>, b: seq<bytes>, y: seq<Event>)
    requires CarriesAll(env, a, x) && CarriesAll(env, b, y)
    ensures CarriesAll(env, a + b, x + y)
  {
    hide CarriesEvent;
  }

  /** The events a committed block carries. */
  ghost function Segment(truth: Truth, s: Step): seq<Event>
    requires Committed(truth, s)
  {
    CommittedStep(truth, s);
    var off, n := s.c.st.offset.value, IndexOf(s).num;
    if n == 0 then [] else truth(s.c.st.lastSynced.value + 1)[off..off + n]
  }

  lemma {:induction false} AdvanceSpans(truth: Truth, a: State, b: State, n: nat, full: bool)
    requires Positioned(truth, a) && a.offset.value + n <= |truth(a.lastSynced.value + 1)|
    requires full ==> a.offset.value + n == |truth(a.lastSynced.value + 1)|
    requires b.lastSynced == Some(if full then a.lastSynced.value + 1 else a.lastSynced.value)
    requires b.offset == Some(if full then 0 else a.offset.value + n)
    ensures Spans(truth, a, b, truth(a.lastSynced.value + 1)[a.offset.value..a.offset.value + n])
  {
    var l, off := a.lastSynced.value, a.offset.value;
    var t := truth(l + 1);
    assert Log(truth, l, l) == [];
    assert t[..off] + t[off..off + n] == t[..off + n];
    if full {
      assert Log(truth, l, l + 1) == [] + t;
      assert Before(truth, l, l + 1, 0) == t == t[..off + n];
    }
  }

  /** One committed block spans exactly the events it carries. */
  lemma {:induction false} StepSpans(truth: Truth, s: Step)
    requires Committed(truth, s)
    ensures s.b.txs != [] && ReadIndex(s.c.env, s.b.txs[0]).Some? && 1 + IndexOf(s).num <= |s.b.txs|
    ensures Spans(truth, s.c.st, After(s), Segment(truth, s))
    ensures CarriesAll(s.c.env, EventTxs(s), Segment(truth, s))
  {
    hide Accepts, WellFormed, Validated, ReadIndex, CarriesAll, After, Spans;
    CommittedStep(truth, s);
    AcceptedAfter(s);
    AdvanceSpans(truth, s.c.st, After(s), IndexOf(s).num, IndexOf(s).newBlock);
  }

  /**
   * Exactly-once relay. Over every run of committed blocks, the event transactions of all blocks
   * together carry one contiguous slice of the Ethereum event log: it starts at the position the run
   * started from and ends at the position it ended at -- nothing lost, repeated or reordered.
   */
  lemma {:induction false} ExactlyOnce(truth: Truth, steps: seq<Step>) returns (slice: seq<Event>)
    requires Run(truth, steps) && steps != []
    ensures Spans(truth, steps[0].c.st, FinalState(truth, steps), slice)
    ensures CarriesAll(steps[0].c.env, Relayed(truth, steps), slice)
  {
    hide Committed, After, ReadIndex, Spans, CarriesAll, EventTxs, Segment, Relayed, IndexOf, FinalState;
    var n := |steps| - 1;
    var s := steps[n];
    StepSpans(truth, s);
    RunPrefix(truth, steps);
    SameEnv(truth, steps, n);
    RelayedLast(truth, steps);
    FinalIsAfter(truth, steps);
    slice := Segment(truth, s);
    if n > 0 {
      var done := ExactlyOnce(truth, steps[..n]);
      FinalIsAfter(truth, steps[..n]);
      assert Follows(truth, steps[n - 1], s) && steps[..n][n - 1] == steps[n - 1];
      SpansTransitive(truth, steps[0].c.st, s.c.st, After(s), done, slice);
      CarriesConcat(s.c.env, Relayed(truth, steps[..n]), done, EventTxs(s), slice);
      slice := done + slice;
    }
  }

  lemma {:induction false} SameEnv(truth: Truth, steps: seq<Step>, i: nat)
    requires Run(truth, steps) && i < |steps|
    ensures steps[i].c.env == steps[0].c.env
  {
    hide Committed, After, ReadIndex;
    if i > 0 {
      SameEnv(truth, steps, i - 1);
      assert Follows(truth, steps[i - 1], steps[i]);
    }
  }
}
