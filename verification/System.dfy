/**
 * The whole bridge: one chain of committed blocks and any number of validators, each with its own
 * sidecar that fetches, calibrates and answers in its own time.
 */
module Bridge {
  import opened Base
  import opened MsgIndexes
  import opened Events
  import opened Keeper
  import opened Proposals
  import opened ProposalTheorems
  import opened Relay
  import opened Sidecar
  import opened SidecarTheorems

  /** Committed state, and the sidecars with the start block each was configured with. */
  datatype System = System(st: State, sides: seq<Side>, starts: seq<nat>)

  /**
   * What a validator hears about block `n`: a failure of its sidecar or of the call to it, or the answer
   * that three reads give, each in its own state of the sidecar.
   */
  ghost predicate Hears(answer: Answer, first: Side, second: Side, third: Side, n: nat) {
    || (answer.failed && answer.events == [])
    || (!answer.failed
        && QueryAnswer(n, Stored(first.store, n), second.store.start, third.store.last + 1) == Some(answer.events))
  }

  /** Sidecar `v` takes a step; the heights it calibrates with were committed by the chain. */
  ghost predicate SidecarMoves(node: Node, a: System, b: System, v: nat) {
    && v < |a.sides| && b == a.(sides := b.sides) && |b.sides| == |a.sides|
    && (forall u :: 0 <= u < |a.sides| && u != v ==> b.sides[u] == a.sides[u])
    && Next(node, a.sides[v], b.sides[v])
    && a.st.lastSynced.Some? && (b.sides[v].floor == a.sides[v].floor || b.sides[v].floor <= a.st.lastSynced.value)
  }

  /** The positions in a behaviour at which a query made its three reads. */
  datatype Reads = Reads(first: nat, second: nat, third: nat)

  datatype Action = Move(v: nat) | Commit(s: Step, v: nat, r: Reads)

  /**
   * A block is committed in state `t` that some validator `v` accepted with what it heard from its
   * sidecar by then; about a block that does not sync the sidecar is not asked.
   */
  ghost predicate Commits(states: seq<System>, t: nat, s: Step, v: nat, r: Reads)
    requires t + 1 < |states|
  {
    var a := states[t];
    && s.c.st == a.st && Accepted(s)
    && HeardBy(states, t, v, r, s.answer)
    && s.b.txs != [] && ReadIndex(s.c.env, s.b.txs[0]).Some?
    && (IndexOf(s).NoSync() ==> s.answer == Answer([], true))
    && states[t + 1] == a.(st := After(s))
  }

  ghost predicate Does(node: Node, env: Env, states: seq<System>, t: nat, act: Action)
    requires t + 1 < |states|
  {
    match act
    case Move(v) => SidecarMoves(node, states[t], states[t + 1], v)
    case Commit(s, v, r) => s.c.env == env && Commits(states, t, s, v, r)
  }

  /** States and the actions between them, starting from fresh sidecars. */
  ghost predicate Behaviour(node: Node, env: Env, states: seq<System>, acts: seq<Action>) {
    && |states| == |acts| + 1
    && |states[0].sides| == |states[0].starts|
    && (forall v :: 0 <= v < |states[0].sides| ==> states[0].sides[v] == Fresh(states[0].starts[v]))
    && (forall t :: 0 <= t < |acts| ==> Does(node, env, states, t, acts[t]))
  }

  // ----- The sidecars of a behaviour

  /** Every sidecar is exact, and was never calibrated beyond the chain. */
  ghost predicate Sound(node: Node, a: System) {
    && |a.sides| == |a.starts|
    && (forall v :: 0 <= v < |a.sides| ==> SideSound(node, a, v))
  }

  ghost predicate SideSound(node: Node, a: System, v: nat)
    requires |a.sides| == |a.starts| && v < |a.sides|
  {
    && Windowed(a.starts[v], a.sides[v]) && Exact(node, a.sides[v])
    && (a.st.lastSynced.Some? ==> a.sides[v].floor <= a.st.lastSynced.value)
  }

  lemma {:induction false} FreshIsSound(node: Node, a: System)
    requires |a.sides| == |a.starts| && forall v :: 0 <= v < |a.sides| ==> a.sides[v] == Fresh(a.starts[v])
    ensures Sound(node, a)
  {
    hide TruthOf;
    forall v | 0 <= v < |a.sides|
      ensures SideSound(node, a, v)
    {
      FreshHolds(node, a.starts[v]);
    }
  }

  lemma {:induction false} MoveKeepsSound(node: Node, a: System, b: System, v: nat)
    requires Sound(node, a) && SidecarMoves(node, a, b, v)
    ensures Sound(node, b)
    ensures forall u :: 0 <= u < |a.sides| ==> Grown(a.sides[u], b.sides[u])
  {
    hide Windowed, Exact, Next;
    assert SideSound(node, a, v);
    NextKeepsWindow(node, a.starts[v], a.sides[v], b.sides[v]);
    NextKeepsExact(node, a.starts[v], a.sides[v], b.sides[v]);
    forall u | 0 <= u < |b.sides|
      ensures SideSound(node, b, u)
    {
      assert SideSound(node, a, u);
    }
  }

  lemma {:induction false} CommitKeepsSound(node: Node, states: seq<System>, t: nat, s: Step, v: nat, r: Reads)
    requires t + 1 < |states| && Sound(node, states[t]) && Commits(states, t, s, v, r)
    ensures Sound(node, states[t + 1]) && states[t + 1].sides == states[t].sides
  {
    hide Windowed, Exact, Accepted, After, ReadIndex, Hears;
    LastOnlyGrows(s);
    var a, b := states[t], states[t + 1];
    forall u | 0 <= u < |b.sides|
      ensures SideSound(node, b, u)
    {
      assert SideSound(node, a, u);
    }
  }

  lemma {:induction false} LastOnlyGrows(s: Step)
    requires Accepted(s)
    ensures s.c.st.lastSynced.Some? && s.b.txs != [] && ReadIndex(s.c.env, s.b.txs[0]).Some?
    ensures After(s).lastSynced.Some? && s.c.st.lastSynced.value <= After(s).lastSynced.value
  {
    hide Accepts, WellFormed, ReadIndex, After;
    AcceptedAfter(s);
  }

  /** In every state of every behaviour the sidecars are sound, and each has only grown since any earlier one. */
  lemma {:induction false} AlwaysSound(node: Node, env: Env, states: seq<System>, acts: seq<Action>, i: nat, j: nat)
    requires Behaviour(node, env, states, acts) && i <= j < |states|
    ensures Sound(node, states[j]) && states[i].starts == states[j].starts && |states[i].sides| == |states[j].sides|
    ensures forall v :: 0 <= v < |states[j].sides| ==> Grown(states[i].sides[v], states[j].sides[v])
    decreases j
  {
    hide Sound, Commits, SidecarMoves, Bound;
    if j == 0 {
      FreshIsSound(node, states[0]);
    } else {
      var t := j - 1;
      AlwaysSound(node, env, states, acts, if i < j then i else t, t);
      assert Does(node, env, states, t, acts[t]);
      match acts[t]
      case Move(v) =>
        MovedSides(node, states[t], states[j], v);
        MoveKeepsSound(node, states[t], states[j], v);
      case Commit(s, v, r) =>
        CommitKeepsSound(node, states, t, s, v, r);
        CommitMoves(states, t, s, v, r);
    }
  }

  lemma {:induction false} MovedSides(node: Node, a: System, b: System, v: nat)
    requires SidecarMoves(node, a, b, v)
    ensures b.starts == a.starts && |b.sides| == |a.sides| && b.st == a.st
  {
    hide Next;
  }

  lemma {:induction false} CommitMoves(states: seq<System>, t: nat, s: Step, v: nat, r: Reads)
    requires t + 1 < |states| && Commits(states, t, s, v, r)
    ensures states[t + 1].starts == states[t].starts && Accepted(s) && s.c.st == states[t].st
    ensures s.b.txs != [] && ReadIndex(s.c.env, s.b.txs[0]).Some? && states[t + 1].st == After(s)
  {
    hide Accepted, ReadIndex, After, Hears;
  }

  // ----- What the validators hear

  function Truths(node: Node): Truth {
    (n: nat) => TruthOf(node, n)
  }

  /** By state `t`, validator `v` asked its sidecar about the block after the last one synced and heard `answer`. */
  ghost predicate HeardBy(states: seq<System>, t: nat, v: nat, r: Reads, answer: Answer) {
    && r.first <= r.second <= r.third <= t < |states| && states[t].st.lastSynced.Some?
    && (forall i :: 0 <= i <= t ==> v < |states[i].sides|)
    && Hears(answer, states[r.first].sides[v], states[r.second].sides[v], states[r.third].sides[v], states[t].st.lastSynced.value + 1)
  }

  /** An update overtook the query that gave the answer. */
  ghost predicate HeardTooLate(node: Node, states: seq<System>, t: nat, v: nat, r: Reads, answer: Answer)
    requires HeardBy(states, t, v, r, answer)
  {
    !answer.failed && Overtaken(node, states[r.first].sides[v], states[r.third].sides[v], states[t].st.lastSynced.value + 1)
  }

  /** An exact sidecar, asked for the next block, tells the truth unless an update overtakes the query. */
  lemma {:induction false} HeardIsHonestIff(node: Node, env: Env, states: seq<System>, acts: seq<Action>,
                                            t: nat, v: nat, r: Reads, answer: Answer)
    requires Behaviour(node, env, states, acts) && HeardBy(states, t, v, r, answer)
    ensures Honest(answer, Truths(node), states[t].st.lastSynced.value + 1) <==> !HeardTooLate(node, states, t, v, r, answer)
    ensures HeardTooLate(node, states, t, v, r, answer) ==>
              answer == Answer([], false) && TruthOf(node, states[t].st.lastSynced.value + 1) != []
  {
    hide Windowed, Exact, TruthOf, Does, QueryAnswer, Stored;
    AlwaysSound(node, env, states, acts, r.first, r.first);
    AlwaysSound(node, env, states, acts, r.first, r.second);
    AlwaysSound(node, env, states, acts, r.second, r.third);
    AlwaysSound(node, env, states, acts, r.third, t);
    var x, y, z := states[r.first], states[r.second], states[r.third];
    assert SideSound(node, x, v) && SideSound(node, y, v) && SideSound(node, states[t], v);
    var n := states[t].st.lastSynced.value + 1;
    assert Truths(node)(n) == TruthOf(node, n);
    ReadsMisleadIff(node, x.starts[v], x.sides[v], y.sides[v], z.sides[v], n);
  }

  /** The block committed in state `t` was accepted with such an answer. */
  ghost predicate MisledAt(node: Node, states: seq<System>, acts: seq<Action>, t: nat)
    requires |states| == |acts| + 1 && t < |acts|
  {
    var act := acts[t];
    act.Commit? && HeardBy(states, t, act.v, act.r, act.s.answer) && HeardTooLate(node, states, t, act.v, act.r, act.s.answer)
  }

  lemma {:induction false} CommitIsHonestIff(node: Node, env: Env, states: seq<System>, acts: seq<Action>, t: nat)
    requires Behaviour(node, env, states, acts) && t < |acts| && acts[t].Commit?
    ensures states[t].st.lastSynced.Some?
    ensures Honest(acts[t].s.answer, Truths(node), states[t].st.lastSynced.value + 1) <==> !MisledAt(node, states, acts, t)
    ensures MisledAt(node, states, acts, t) ==>
              acts[t].s.answer == Answer([], false) && TruthOf(node, states[t].st.lastSynced.value + 1) != []
  {
    hide Hears, HeardTooLate, Honest, ReadIndex, After, Accepted;
    var s, v, r := acts[t].s, acts[t].v, acts[t].r;
    assert Does(node, env, states, t, acts[t]);
    LastOnlyGrows(s);
    assert HeardBy(states, t, v, r, s.answer);
    HeardIsHonestIff(node, env, states, acts, t, v, r, s.answer);
  }

  // ----- The committed blocks as a run

  /** The blocks committed by the first `t` actions, in order. */
  ghost function Committing(acts: seq<Action>, t: nat): seq<Step>
    requires t <= |acts|
  {
    if t == 0 then []
    else
      var rest, act := Committing(acts, t - 1), acts[t - 1];
      if act.Commit? then rest + [act.s] else rest
  }

  lemma {:induction false} RunExtends(truth: Truth, steps: seq<Step>, s: Step)
    requires Run(truth, steps) && Committed(truth, s)
    requires steps != [] ==> FinalState(truth, steps) == s.c.st && steps[|steps| - 1].c.env == s.c.env
    ensures Run(truth, steps + [s])
    ensures s.b.txs != [] && ReadIndex(s.c.env, s.b.txs[0]).Some?
    ensures FinalState(truth, steps + [s]) == After(s)
  {
    hide Run, Accepted, Honest, After, ReadIndex, FinalState, Follows;
    AcceptedAfter(s);
    if steps != [] {
      LastFollows(truth, steps, s);
    }
    RunSnoc(truth, steps, s);
    FinalIsAfter(truth, steps + [s]);
  }

  lemma {:induction false} RunSnoc(truth: Truth, steps: seq<Step>, s: Step)
    requires Run(truth, steps) && Committed(truth, s)
    requires steps != [] ==> Committed(truth, steps[|steps| - 1]) && Follows(truth, steps[|steps| - 1], s)
    ensures Run(truth, steps + [s])
  {
    hide Committed, Follows;
    var all := steps + [s];
    forall i, j | 0 <= i < j < |all| && j == i + 1
      ensures Committed(truth, all[i]) && Follows(truth, all[i], all[j])
    {
      if j < |steps| {
        assert Follows(truth, steps[i], steps[j]);
      } else {
        assert all[i] == steps[|steps| - 1] && all[j] == s;
      }
    }
  }

  lemma {:induction false} LastFollows(truth: Truth, steps: seq<Step>, s: Step)
    requires Run(truth, steps) && steps != []
    requires FinalState(truth, steps) == s.c.st && steps[|steps| - 1].c.env == s.c.env
    ensures Committed(truth, steps[|steps| - 1]) && Follows(truth, steps[|steps| - 1], s)
  {
    hide Committed, After, ReadIndex, FinalState;
    FinalIsAfter(truth, steps);
  }

  /** Whatever the sidecars do in between, blocks accepted without being misled form a run of honest steps. */
  lemma {:induction false} CommittedBlocksRun(node: Node, env: Env, states: seq<System>, acts: seq<Action>, t: nat)
    requires Behaviour(node, env, states, acts) && t <= |acts|
    requires forall i :: 0 <= i < t ==> !MisledAt(node, states, acts, i)
    ensures Run(Truths(node), Committing(acts, t))
    ensures var steps := Committing(acts, t);
            if steps == [] then states[t].st == states[0].st
            else FinalState(Truths(node), steps) == states[t].st && steps[0].c.st == states[0].st && steps[0].c.env == env
    decreases t
  {
    hide Accepted, After, FinalState, Commits, SidecarMoves, MisledAt, Honest;
    var truth := Truths(node);
    if t > 0 {
      var act := acts[t - 1];
      CommittedBlocksRun(node, env, states, acts, t - 1);
      assert Does(node, env, states, t - 1, act);
      match act
      case Move(v) =>
        MovedSides(node, states[t - 1], states[t], v);
      case Commit(s, v, r) =>
        CommitMoves(states, t - 1, s, v, r);
        CommitIsHonestIff(node, env, states, acts, t - 1);
        LastOnlyGrows(s);
        assert Committed(truth, s);
        var steps := Committing(acts, t - 1);
        if steps != [] {
          SameEnv(truth, steps, |steps| - 1);
        }
        RunExtends(truth, steps, s);
    }
  }

  // ----- Exactly once

  /** The event transactions of a step, of which there are some only if the step is well formed. */
  ghost function TxsOf(s: Step): seq<bytes> {
    if s.b.txs != [] && ReadIndex(s.c.env, s.b.txs[0]).Some? && 1 + IndexOf(s).num <= |s.b.txs| then EventTxs(s) else []
  }

  /** All event transactions that the first `t` actions relayed, in order. */
  ghost function RelayedBy(acts: seq<Action>, t: nat): seq<bytes>
    requires t <= |acts|
  {
    if t == 0 then []
    else RelayedBy(acts, t - 1) + (if acts[t - 1].Commit? then TxsOf(acts[t - 1].s) else [])
  }

  /** A block accepted on the word that there are no events carries none and finishes the Ethereum block. */
  lemma {:induction false} SilentBlock(s: Step)
    requires Accepted(s) && s.answer == Answer([], false)
    requires s.b.txs != [] && ReadIndex(s.c.env, s.b.txs[0]).Some? && !IndexOf(s).NoSync()
    ensures TxsOf(s) == [] && s.c.st.lastSynced.Some? && s.c.st.offset == Some(0)
    ensures After(s).lastSynced == Some(s.c.st.lastSynced.value + 1) && After(s).offset == Some(0)
  {
    hide Accepts, WellFormed, ReadIndex, After, CarriesAll;
    AcceptedAfter(s);
    CommittedStep((n: nat) => [], s);
  }

  /** If the word was false, it skips every event of that block. */
  lemma {:induction false} MisledSkips(truth: Truth, s: Step)
    requires Accepted(s) && s.answer == Answer([], false)
    requires s.b.txs != [] && ReadIndex(s.c.env, s.b.txs[0]).Some? && !IndexOf(s).NoSync()
    ensures TxsOf(s) == [] && s.c.st.lastSynced.Some?
    ensures Spans(truth, s.c.st, After(s), truth(s.c.st.lastSynced.value + 1))
  {
    hide Accepted, ReadIndex, After, TxsOf, Spans;
    SilentBlock(s);
    var t := truth(s.c.st.lastSynced.value + 1);
    AdvanceSpans(truth, s.c.st, After(s), |t|, true);
    assert t[0..|t|] == t;
  }

  /** What a commit does to the relay position, and whether its transactions carry what it passes over. */
  lemma {:induction false} CommitSlice(node: Node, env: Env, states: seq<System>, acts: seq<Action>, t: nat)
    returns (slice: seq<Event>)
    requires Behaviour(node, env, states, acts) && t < |acts| && acts[t].Commit?
    ensures Spans(Truths(node), states[t].st, states[t + 1].st, slice)
    ensures if MisledAt(node, states, acts, t) then |TxsOf(acts[t].s)| < |slice| else CarriesAll(env, TxsOf(acts[t].s), slice)
  {
    hide TruthOf, Accepted, After, ReadIndex, Spans, CarriesAll, Honest, HeardBy, HeardTooLate;
    var truth, s := Truths(node), acts[t].s;
    assert Does(node, env, states, t, acts[t]);
    CommitIsHonestIff(node, env, states, acts, t);
    LastOnlyGrows(s);
    if MisledAt(node, states, acts, t) {
      MisledSkips(truth, s);
      slice := truth(states[t].st.lastSynced.value + 1);
    } else {
      assert Committed(truth, s);
      StepSpans(truth, s);
      slice := Segment(truth, s);
    }
  }

  ghost predicate AnyCommit(acts: seq<Action>, t: nat)
    requires t <= |acts|
  {
    exists i :: 0 <= i < t && acts[i].Commit?
  }

  ghost predicate AnyMisled(node: Node, states: seq<System>, acts: seq<Action>, t: nat)
    requires |states| == |acts| + 1 && t <= |acts|
  {
    exists i :: 0 <= i < t && MisledAt(node, states, acts, i)
  }

  /** The part of the log that the first `t` actions passed over, and whether it was all relayed. */
  lemma {:induction false} SliceUpTo(node: Node, env: Env, states: seq<System>, acts: seq<Action>, t: nat)
    returns (slice: seq<Event>)
    requires Behaviour(node, env, states, acts) && t <= |acts|
    ensures if AnyCommit(acts, t) then Spans(Truths(node), states[0].st, states[t].st, slice)
            else states[t].st == states[0].st && RelayedBy(acts, t) == [] && slice == []
    ensures if AnyMisled(node, states, acts, t) then |RelayedBy(acts, t)| < |slice| else CarriesAll(env, RelayedBy(acts, t), slice)
    decreases t
  {
    hide Does, Spans, MisledAt, TxsOf, CarriesEvent;
    slice := [];
    if t > 0 {
      var act := acts[t - 1];
      slice := SliceUpTo(node, env, states, acts, t - 1);
      StillAny(node, states, acts, t);
      if act.Commit? {
        var next := CommitSlice(node, env, states, acts, t - 1);
        if AnyCommit(acts, t - 1) {
          SpansTransitive(Truths(node), states[0].st, states[t - 1].st, states[t].st, slice, next);
        } else {
          assert [] + next == next;
        }
        slice := slice + next;
      } else {
        Stays(node, env, states, acts, t - 1);
        assert RelayedBy(acts, t) == RelayedBy(acts, t - 1) + [];
      }
    }
  }

  lemma {:induction false} StillAny(node: Node, states: seq<System>, acts: seq<Action>, t: nat)
    requires |states| == |acts| + 1 && 0 < t <= |acts|
    ensures AnyCommit(acts, t) <==> AnyCommit(acts, t - 1) || acts[t - 1].Commit?
    ensures AnyMisled(node, states, acts, t) <==> AnyMisled(node, states, acts, t - 1) || MisledAt(node, states, acts, t - 1)
    ensures MisledAt(node, states, acts, t - 1) ==> acts[t - 1].Commit?
  {
    hide HeardBy, HeardTooLate;
  }

  lemma {:induction false} Stays(node: Node, env: Env, states: seq<System>, acts: seq<Action>, t: nat)
    requires Behaviour(node, env, states, acts) && t < |acts| && acts[t].Move?
    ensures states[t + 1].st == states[t].st
  {
    hide Next;
    assert Does(node, env, states, t, acts[t]);
  }

  /** Two relay positions have one slice between them. */
  lemma {:induction false} OneSlice(truth: Truth, a: State, b: State, x: seq<Event>, y: seq<Event>)
    requires Spans(truth, a, b, x) && Spans(truth, a, b, y)
    ensures x == y
  {
    var done := truth(a.lastSynced.value + 1)[..a.offset.value];
    assert x == (done + x)[|done|..] && y == (done + y)[|done|..];
  }

  /**
   * End to end: over every behaviour of the bridge -- any validators' sidecars fetching, pruning and
   * fast-forwarding at any time, also between the reads of a query, any proposers, any cuts -- the
   * injected event transactions carry exactly the Ethereum log between where the chain started and where
   * it stands, in order, if and only if no block was accepted with an answer that an update overtook.
   */
  lemma {:induction false} BridgeRelaysExactlyOnce(node: Node, env: Env, states: seq<System>, acts: seq<Action>)
    requires Behaviour(node, env, states, acts) && AnyCommit(acts, |acts|)
    ensures (exists slice: seq<Event> ::
               Spans(Truths(node), states[0].st, states[|acts|].st, slice) && CarriesAll(env, RelayedBy(acts, |acts|), slice))
            <==> !AnyMisled(node, states, acts, |acts|)
  {
    hide Does, Spans, AnyMisled, AnyCommit, RelayedBy, CarriesEvent;
    var slice := SliceUpTo(node, env, states, acts, |acts|);
    forall other: seq<Event> | Spans(Truths(node), states[0].st, states[|acts|].st, other)
      ensures other == slice
    {
      OneSlice(Truths(node), states[0].st, states[|acts|].st, slice, other);
    }
  }

  // ----- Agreement

  /**
   * Two validators, two sidecars: whatever block one prepared with an honest answer, another that heard
   * honestly too accepts it iff it heard as much -- both answered, or the proposer heard nothing and the
   * update delay is not exceeded.
   */
  lemma {:induction false} Agreement(truth: Truth, c: Ctx, height: nat, native: seq<bytes>, maxTxBytes: nat, time: int,
                                     block: seq<bytes>, mine: Answer, theirs: Answer)
    requires WellFormed(c) && Prepare(c, height, native, maxTxBytes, mine) == Some(block)
    requires c.st.lastSynced.Some? && Honest(mine, truth, c.st.lastSynced.value + 1)
    requires Honest(theirs, truth, c.st.lastSynced.value + 1)
    ensures Accepts(c, height, time, block, theirs) <==> if mine.failed then !DelayExceeded(c, time) else !theirs.failed
  {
    hide WellFormed, Validated, Prepare, Accepts, ReadIndex, DelayExceeded;
    WellFormedIsFaithful(c);
    Completeness(c, height, native, maxTxBytes, mine, time, block);
    PreparedIndex(c, height, native, maxTxBytes, mine, block);
    if mine.failed {
      NoSyncIgnoresSidecar(c, height, time, block, mine, theirs);
    } else if theirs.failed {
      if Accepts(c, height, time, block, theirs) {
        var pending, n := Soundness(c, height, time, block, theirs);
        PendingShape(c, height, theirs, pending);
      }
    }
  }

  /**
   * So in every behaviour, a block that validator `u` prepared with what it heard is accepted by every
   * validator `v` whose sidecar answered, unless an update overtook one of the two queries.
   */
  lemma {:induction false} ValidatorsAgree(node: Node, env: Env, states: seq<System>, acts: seq<Action>, t: nat,
                                           u: nat, mine: Answer, mr: Reads, v: nat, theirs: Answer, tr: Reads,
                                           c: Ctx, height: nat, native: seq<bytes>, maxTxBytes: nat, time: int, block: seq<bytes>)
    requires Behaviour(node, env, states, acts)
    requires HeardBy(states, t, u, mr, mine) && !HeardTooLate(node, states, t, u, mr, mine)
    requires HeardBy(states, t, v, tr, theirs) && !HeardTooLate(node, states, t, v, tr, theirs)
    requires WellFormed(c) && c.st == states[t].st && Prepare(c, height, native, maxTxBytes, mine) == Some(block)
    ensures Accepts(c, height, time, block, theirs) <==> if mine.failed then !DelayExceeded(c, time) else !theirs.failed
  {
    hide WellFormed, Validated, Prepare, Accepts, DelayExceeded, Honest, HeardTooLate, Hears, Does;
    HeardIsHonestIff(node, env, states, acts, t, u, mr, mine);
    HeardIsHonestIff(node, env, states, acts, t, v, tr, theirs);
    Agreement(Truths(node), c, height, native, maxTxBytes, time, block, mine, theirs);
  }

  /** A prepared block starts with a MsgIndex that syncs iff the proposer's sidecar answered. */
  lemma {:induction false} PreparedIndex(c: Ctx, height: nat, native: seq<bytes>, maxTxBytes: nat, answer: Answer, block: seq<bytes>)
    requires WellFormed(c) && Prepare(c, height, native, maxTxBytes, answer) == Some(block)
    requires answer.failed ==> answer.events == []
    ensures block != [] && ReadIndex(c.env, block[0]).Some?
    ensures ReadIndex(c.env, block[0]).value.NoSync() <==> answer.failed
  {
    hide WellFormed, Validated, Pending, ReadIndex, IndexTx, Selection.Feed, Seqs, Filled, Planned;
    WellFormedIsFaithful(c);
    var p := Planned(c, height, native, maxTxBytes, answer).value;
    PreparedBlock(c, height, native, maxTxBytes, answer, p);
    IndexReadsBack(c, p.msg, Seqs(c, height).index);
    assert block[0] == Proposals.Injected(c, height, p)[0];
    PlannedIsCut(c, height, native, maxTxBytes, answer, p);
    var pending := Pending(c, height, answer).value;
    PendingShape(c, height, answer, pending);
    if answer.failed {
      assert |answer.events| == 0;
      assert pending.txs == [];
    }
  }
}
