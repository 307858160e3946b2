/** The sequences that make injected transactions distinct, within a block and over a run. */
module SequenceUse {
  import opened Base
  import opened TxWire
  import opened MsgIndexes
  import opened Events
  import opened Proposals
  import opened ProposalTheorems
  import opened Ante
  import opened Relay

  /** How many transactions a committed block injects, MsgIndex included. */
  ghost function InjectedCount(truth: Truth, s: Step): nat
    requires Committed(truth, s)
  {
    AcceptedAfter(s);
    1 + IndexOf(s).num + |SupplyTxs(s.c, s.b.height)|
  }

  /** The sequence of injected transaction `k`: MsgIndex, then events, then the supply delta. */
  ghost function SequenceAt(truth: Truth, s: Step, k: nat): nat
    requires Committed(truth, s) && k < InjectedCount(truth, s)
  {
    AcceptedAfter(s);
    if k == 0 then Seqs(s.c, s.b.height).index
    else if k <= IndexOf(s).num then EventSeq(s.c, s.b.height, k - 1)
    else Seqs(s.c, s.b.height).supplyDelta
  }

  /** Transaction `k` of a committed block really is one with that sequence. */
  lemma {:induction false} InjectedHasSequence(truth: Truth, s: Step, k: nat) returns (msgs: seq<Any>)
    requires Committed(truth, s) && k < InjectedCount(truth, s)
    ensures k < |s.b.txs| && s.b.txs[k] == RawTx(msgs, SequenceAt(truth, s, k))
  {
    hide Accepts, WellFormed, ReadIndex, Rebuilt, RawTx, Seen;
    WellFormedIsFaithful(s.c);
    var p := AcceptedShape(s.c, s.b.height, s.b.time, s.b.txs, s.answer);
    var inj := Proposals.Injected(s.c, s.b.height, p);
    assert s.b.txs[k] == inj[k];
    if k == 0 {
      msgs := [Any(INDEX_URL, IndexBytes(p.msg))];
    } else if k <= |p.txs| {
      msgs := EventHasSequence(s.c, s.b.height, s.b.time, p, s.answer, k - 1);
    } else {
      msgs := [SupplyDeltaAny(s.c.env.authority)];
    }
  }

  /**
   * The sequences in full: MsgIndex takes the one after the counter, MsgSupplyDelta, when its period comes,
   * the one after that, and event k of the Ethereum block the k-th after those, relayed before or not.
   */
  lemma {:induction false} SequenceFormula(truth: Truth, s: Step, k: nat)
    requires Committed(truth, s) && k < InjectedCount(truth, s)
    ensures s.b.txs != [] && ReadIndex(s.c.env, s.b.txs[0]).Some? && s.c.params.supplyDeltaPeriod > 0
    ensures var num, supply := IndexOf(s).num, if s.b.height % s.c.params.supplyDeltaPeriod == 0 then 1 else 0;
            && InjectedCount(truth, s) == 1 + num + supply
            && SequenceAt(truth, s, k) == s.c.st.lastSequence +
                 (if k == 0 then 1 else if k <= num then 1 + supply + s.c.st.offset.value + k else 2)
  {
    hide Accepts, ReadIndex, Faithful;
    AcceptedAfter(s);
  }

  lemma {:induction false} EventHasSequence(c: Ctx, height: nat, time: int, p: Plan, answer: Answer, i: nat)
    returns (msgs: seq<Any>)
    requires WellFormed(c) && Rebuilt(c, height, time, p.msg, answer) == Some(p) && i < |p.txs|
    ensures c.st.offset.Some? && p.txs[i] == RawTx(msgs, EventSeq(c, height, i))
  {
    hide Rebuilt, Pending, Carries, RawTx, WellFormed, Validated;
    WellFormedIsFaithful(c);
    RebuiltIsPrefix(c, height, time, p, answer);
    PendingCarries(c, height, answer, Pending(c, height, answer).value, i);
    CarriedDecodes(c.env, p.txs[i], answer.events[c.st.offset.value + i], c.st.lastSynced.value + 1, EventSeq(c, height, i));
    msgs :| p.txs[i] == RawTx(msgs, EventSeq(c, height, i));
  }

  // ----- Within a block

  /** Within one block all injected transactions differ, after any trimming from head or tail. */
  lemma {:induction false} DistinctWithinBlock(truth: Truth, s: Step, k: nat, l: nat)
    requires Committed(truth, s) && k < l < InjectedCount(truth, s)
    ensures SequenceAt(truth, s, k) != SequenceAt(truth, s, l)
    ensures l < |s.b.txs| && s.b.txs[k] != s.b.txs[l]
  {
    hide Accepts, WellFormed, ReadIndex, RawTx;
    var a := InjectedHasSequence(truth, s, k);
    var b := InjectedHasSequence(truth, s, l);
    if s.b.txs[k] == s.b.txs[l] {
      RawTxInjective(a, SequenceAt(truth, s, k), b, SequenceAt(truth, s, l));
    }
  }

  // ----- Against the keeper's counter

  /** The block stays within the sequences its execution accounts for. */
  ghost predicate Accounted(truth: Truth, s: Step)
    requires Committed(truth, s)
  {
    AcceptedAfter(s);
    forall k :: 0 <= k < InjectedCount(truth, s) ==>
      s.c.st.lastSequence < SequenceAt(truth, s, k) <= After(s).lastSequence
  }

  /**
   * The counter is documented as the last sequence used. That is so exactly for blocks that do not
   * continue a half-consumed Ethereum block: events skipped at its head still move the sequences
   * forward, but the handler counts only the events injected.
   */
  lemma {:induction false} AccountedIffNoOffset(truth: Truth, s: Step)
    requires Committed(truth, s)
    ensures Accounted(truth, s) <==> s.c.st.offset.value == 0
  {
    hide Accepts, WellFormed, ReadIndex;
    AcceptedAfter(s);
    if s.c.st.offset.value > 0 {
      assert SequenceAt(truth, s, IndexOf(s).num) == After(s).lastSequence + s.c.st.offset.value;
    }
  }

  /** Some injected transaction of the block has sequence `q`. */
  ghost predicate Uses(truth: Truth, s: Step, q: nat)
    requires Committed(truth, s)
  {
    exists k: nat :: k < InjectedCount(truth, s) && SequenceAt(truth, s, k) == q
  }

  /**
   * Of the sequences between its counter and the next, a block uses all but those in the place of the
   * events already processed; without offset it uses every one.
   */
  lemma {:induction false} WindowUse(truth: Truth, s: Step, q: nat)
    requires Committed(truth, s) && s.b.txs != [] && ReadIndex(s.c.env, s.b.txs[0]).Some?
    requires s.c.st.lastSequence < q <= After(s).lastSequence
    ensures Validated(s.c)
    ensures Uses(truth, s, q) <==> !(Seqs(s.c, s.b.height).firstEvent <= q < EventSeq(s.c, s.b.height, 0))
  {
    hide Accepts, WellFormed, ReadIndex;
    WellFormedIsFaithful(s.c);
    AcceptedAfter(s);
    var n, first, lo := IndexOf(s).num, Seqs(s.c, s.b.height).firstEvent, EventSeq(s.c, s.b.height, 0);
    if !(first <= q < lo) {
      var k: nat := if q == s.c.st.lastSequence + 1 then 0 else if q < first then n + 1 else q - lo + 1;
      assert SequenceAt(truth, s, k) == q;
    }
  }

  /** The counter only moves forward along a run. */
  lemma {:induction false} CounterGrows(truth: Truth, steps: seq<Step>, i: nat, j: nat)
    requires Run(truth, steps) && i < j < |steps|
    ensures steps[i].b.txs != [] && ReadIndex(steps[i].c.env, steps[i].b.txs[0]).Some?
    ensures steps[i].c.st.lastSequence < After(steps[i]).lastSequence <= steps[j].c.st.lastSequence
    decreases j
  {
    hide Accepted, Honest, ReadIndex, After;
    AcceptedAfter(steps[i]);
    AcceptedAfter(steps[j - 1]);
    assert Follows(truth, steps[j - 1], steps[j]);
    if i < j - 1 {
      CounterGrows(truth, steps, i, j - 1);
    }
  }

  /**
   * Uniqueness over a run: as long as no block continues a half-consumed Ethereum block, no two
   * injected transactions of the whole run have the same bytes, hence none share a hash.
   */
  lemma {:induction false} UniqueOverRun(truth: Truth, steps: seq<Step>, i: nat, k: nat, j: nat, l: nat)
    requires Run(truth, steps) && i <= j < |steps|
    requires forall t :: 0 <= t < |steps| ==> Committed(truth, steps[t]) && steps[t].c.st.offset.value == 0
    requires k < InjectedCount(truth, steps[i]) && l < InjectedCount(truth, steps[j]) && (i, k) != (j, l)
    ensures k < |steps[i].b.txs| && l < |steps[j].b.txs| && steps[i].b.txs[k] != steps[j].b.txs[l]
  {
    hide Run, Committed, ReadIndex, After, SequenceAt, InjectedCount, RawTx;
    var a := InjectedHasSequence(truth, steps[i], k);
    var b := InjectedHasSequence(truth, steps[j], l);
    if i == j {
      if k < l {
        DistinctWithinBlock(truth, steps[i], k, l);
      } else {
        DistinctWithinBlock(truth, steps[i], l, k);
      }
    } else {
      CounterGrows(truth, steps, i, j);
      AccountedIffNoOffset(truth, steps[i]);
      AccountedIffNoOffset(truth, steps[j]);
      assert SequenceAt(truth, steps[i], k) < SequenceAt(truth, steps[j], l);
      if steps[i].b.txs[k] == steps[j].b.txs[l] {
        RawTxInjective(a, SequenceAt(truth, steps[i], k), b, SequenceAt(truth, steps[j], l));
      }
    }
  }

  /** Two blocks use a sequence in common. */
  ghost predicate Shares(truth: Truth, s: Step, t: Step)
    requires Committed(truth, s) && Committed(truth, t)
  {
    exists k: nat, l: nat ::
      k < InjectedCount(truth, s) && l < InjectedCount(truth, t) && SequenceAt(truth, s, k) == SequenceAt(truth, t, l)
  }

  /**
   * The events of `s`, numbered from `lo` to `hi`, reach past the counter that `t` starts from, and meet
   * there the numbers `t` gives to MsgIndex and MsgSupplyDelta or those it gives to its events.
   */
  ghost predicate Overlaps(truth: Truth, s: Step, t: Step)
    requires Committed(truth, s) && Committed(truth, t)
  {
    AcceptedAfter(s);
    AcceptedAfter(t);
    var lo, hi := EventSeq(s.c, s.b.height, 0), EventSeq(s.c, s.b.height, 0) + IndexOf(s).num - 1;
    var lo', hi' := EventSeq(t.c, t.b.height, 0), EventSeq(t.c, t.b.height, 0) + IndexOf(t).num - 1;
    && t.c.st.lastSequence < hi
    && lo <= hi
    && (lo < Seqs(t.c, t.b.height).firstEvent || (lo' <= hi' && lo <= hi' && lo' <= hi))
  }

  /**
   * Uniqueness over any run, exactly: two of its blocks use a sequence in common iff the numbers of the
   * earlier one's events overlap those of the later one, as the counters, offsets and counts tell.
   */
  lemma {:induction false} SharesIff(truth: Truth, steps: seq<Step>, i: nat, j: nat)
    requires Run(truth, steps) && i < j < |steps|
    ensures Committed(truth, steps[i]) && Committed(truth, steps[j])
    ensures Shares(truth, steps[i], steps[j]) <==> Overlaps(truth, steps[i], steps[j])
  {
    hide Committed, ReadIndex, After, Shares, Overlaps;
    CounterGrows(truth, steps, i, j);
    if Shares(truth, steps[i], steps[j]) {
      SharesOverlaps(truth, steps[i], steps[j]);
    }
    if Overlaps(truth, steps[i], steps[j]) {
      OverlapsShares(truth, steps[i], steps[j]);
    }
  }

  /** So without an overlap no two injected transactions of the blocks have the same bytes. */
  lemma {:induction false} DistinctUnlessOverlap(truth: Truth, steps: seq<Step>, i: nat, k: nat, j: nat, l: nat)
    requires Run(truth, steps) && i < j < |steps| && Committed(truth, steps[i]) && Committed(truth, steps[j])
    requires !Overlaps(truth, steps[i], steps[j])
    requires k < InjectedCount(truth, steps[i]) && l < InjectedCount(truth, steps[j])
    ensures k < |steps[i].b.txs| && l < |steps[j].b.txs| && steps[i].b.txs[k] != steps[j].b.txs[l]
  {
    hide Run, Committed, SequenceAt, InjectedCount, RawTx, Overlaps;
    SharesIff(truth, steps, i, j);
    var a := InjectedHasSequence(truth, steps[i], k);
    var b := InjectedHasSequence(truth, steps[j], l);
    if steps[i].b.txs[k] == steps[j].b.txs[l] {
      RawTxInjective(a, SequenceAt(truth, steps[i], k), b, SequenceAt(truth, steps[j], l));
    }
  }

  /** The number of injected transaction `k`, by its kind, and where the block's numbers lie. */
  lemma {:induction false} Numbering(truth: Truth, s: Step, k: nat)
    requires Committed(truth, s) && k < InjectedCount(truth, s)
    ensures s.b.txs != [] && ReadIndex(s.c.env, s.b.txs[0]).Some? && Validated(s.c)
    ensures var q, first, n := SequenceAt(truth, s, k), Seqs(s.c, s.b.height).firstEvent, IndexOf(s).num;
            && After(s).lastSequence == first - 1 + n && s.c.st.lastSequence < first
            && (if 1 <= k <= n then q == EventSeq(s.c, s.b.height, 0) + k - 1 >= first else s.c.st.lastSequence < q < first)
  {
    hide Accepts, WellFormed, ReadIndex;
    WellFormedIsFaithful(s.c);
    AcceptedAfter(s);
  }

  lemma {:induction false} SharesOverlaps(truth: Truth, s: Step, t: Step)
    requires Committed(truth, s) && Committed(truth, t) && Shares(truth, s, t)
    requires s.b.txs != [] && ReadIndex(s.c.env, s.b.txs[0]).Some? && After(s).lastSequence <= t.c.st.lastSequence
    ensures Overlaps(truth, s, t)
  {
    hide Committed, ReadIndex, After, SequenceAt, InjectedCount, Validated, Seqs, EventSeq;
    var k: nat, l: nat :|
      k < InjectedCount(truth, s) && l < InjectedCount(truth, t) && SequenceAt(truth, s, k) == SequenceAt(truth, t, l);
    Numbering(truth, s, k);
    Numbering(truth, t, l);
  }

  lemma {:induction false} OverlapsShares(truth: Truth, s: Step, t: Step)
    requires Committed(truth, s) && Committed(truth, t) && Overlaps(truth, s, t)
    ensures Shares(truth, s, t)
  {
    hide Accepts, WellFormed, ReadIndex;
    WellFormedIsFaithful(s.c);
    WellFormedIsFaithful(t.c);
    AcceptedAfter(s);
    AcceptedAfter(t);
    var lo, lo', first, next := EventSeq(s.c, s.b.height, 0), EventSeq(t.c, t.b.height, 0), Seqs(t.c, t.b.height).firstEvent, t.c.st.lastSequence + 1;
    var q := if lo < first then (if lo <= next then next else lo) else if lo <= lo' then lo' else lo;
    var k := q - lo + 1;
    var l: nat := if q == next then 0 else if q < first then IndexOf(t).num + 1 else q - lo' + 1;
    assert SequenceAt(truth, s, k) == q && SequenceAt(truth, t, l) == q;
  }

  /**
   * And in the long run: the sequence of the last event of a block that continues a half-consumed one lies
   * past the counter, so a later block's window comes to it. That block uses it again, unless the block
   * has an offset itself and the number falls in the place of events already processed.
   */
  lemma {:induction false} ReusedAfterOffset(truth: Truth, steps: seq<Step>, i: nat, j: nat, q: nat) returns (t: nat)
    requires Run(truth, steps) && i < j < |steps|
    requires Committed(truth, steps[i]) && Committed(truth, steps[j]) && steps[i].c.st.offset.value > 0
    requires steps[i].b.txs != [] && ReadIndex(steps[i].c.env, steps[i].b.txs[0]).Some?
    requires steps[j].b.txs != [] && ReadIndex(steps[j].c.env, steps[j].b.txs[0]).Some?
    requires IndexOf(steps[i]).num < InjectedCount(truth, steps[i])
    requires q == SequenceAt(truth, steps[i], IndexOf(steps[i]).num) <= After(steps[j]).lastSequence
    ensures i < t <= j && Committed(truth, steps[t]) && Validated(steps[t].c)
    ensures steps[t].b.txs != [] && ReadIndex(steps[t].c.env, steps[t].b.txs[0]).Some?
    ensures steps[t].c.st.lastSequence < q <= After(steps[t]).lastSequence
    ensures var s := steps[t];
            Uses(truth, s, q) <==> !(Seqs(s.c, s.b.height).firstEvent <= q < EventSeq(s.c, s.b.height, 0))
  {
    hide Run, Committed, ReadIndex, After, InjectedCount, Uses, Validated;
    LastEventBeyond(truth, steps[i]);
    t := Crossing(truth, steps, i, j, q);
    WindowUse(truth, steps[t], q);
  }

  lemma {:induction false} LastEventBeyond(truth: Truth, s: Step)
    requires Committed(truth, s) && s.c.st.offset.value > 0
    ensures s.b.txs != [] && ReadIndex(s.c.env, s.b.txs[0]).Some?
    ensures IndexOf(s).num < InjectedCount(truth, s)
    ensures SequenceAt(truth, s, IndexOf(s).num) > After(s).lastSequence
  {
    hide Accepts, WellFormed, ReadIndex;
    AcceptedAfter(s);
  }

  /** The block whose window comes to `q`. */
  lemma {:induction false} Crossing(truth: Truth, steps: seq<Step>, i: nat, j: nat, q: nat) returns (t: nat)
    requires Run(truth, steps) && i < j < |steps|
    requires steps[i].b.txs != [] && ReadIndex(steps[i].c.env, steps[i].b.txs[0]).Some?
    requires steps[j].b.txs != [] && ReadIndex(steps[j].c.env, steps[j].b.txs[0]).Some?
    requires After(steps[i]).lastSequence < q <= After(steps[j]).lastSequence
    ensures i < t <= j && Committed(truth, steps[t]) && steps[t].b.txs != []
    ensures ReadIndex(steps[t].c.env, steps[t].b.txs[0]).Some?
    ensures steps[t].c.st.lastSequence < q <= After(steps[t]).lastSequence
    decreases j
  {
    hide Accepted, Honest, ReadIndex, After;
    if steps[j].c.st.lastSequence < q {
      t := j;
    } else {
      assert Follows(truth, steps[j - 1], steps[j]);
      AcceptedAfter(steps[j - 1]);
      t := Crossing(truth, steps, i, j - 1, q);
    }
  }
}
