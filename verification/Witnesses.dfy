/** Concrete chains: the theorems' conditions can be met, and what happens where a promise fails. */
module Witnesses {
  import opened Base
  import opened TxWire
  import opened MsgIndexes
  import opened Selection
  import opened Events
  import opened Keeper
  import opened Proposals
  import opened ProposalTheorems
  import opened Ante
  import opened Relay
  import opened Liveness
  import opened Stores
  import opened Sidecar
  import opened SidecarTheorems
  import opened Bridge

  /** A new chain on an Ethereum block without events. */
  ghost function Genesis(env: Env): Ctx {
    Ctx(env, Params("", 0, 2, 0, (space: nat) => 0), 0, Some({}), State(Some(0), Some(0), None, 0, None))
  }

  lemma {:induction false} GenesisPlans(env: Env) returns (maxTxBytes: nat)
    requires Faithful(env)
    ensures WellFormed(Genesis(env)) && Validated(Genesis(env))
    ensures Planned(Genesis(env), 1, [], maxTxBytes, Answer([], false)).Some?
  {
    hide Faithful, Planned, IndexTx, TxSize, Halting, Generated;
    var c, answer := Genesis(env), Answer([], false);
    assert NoneHalts(c, 1, answer);
    PendingIff(c, 1, answer);
    var pending := Pending(c, 1, answer).value;
    PendingShape(c, 1, answer, pending);
    maxTxBytes := TxSize(IndexTx(pending.msg, Seqs(c, 1).index));
    PlansIff(c, 1, [], maxTxBytes, answer);
  }

  /** Its first block, accepted by a validator whose sidecar answered that there are none. */
  lemma {:induction false} GenesisStep(authority: bytes, own: nat -> Meters) returns (s: Step)
    ensures Accepted(s) && s.c.env.authority == authority && s.answer == Answer([], false)
    ensures s.c.st == State(Some(0), Some(0), None, 0, None)
    ensures s.b.txs != [] && ReadIndex(s.c.env, s.b.txs[0]).Some? && !IndexOf(s).NoSync()
  {
    hide WellFormed, Validated, Planned, Accepts, Faithful, ReadIndex, Prepare, Proposals.Injected;
    var env := FaithfulLibrariesExist(authority, d => None, d => None, a => None, a => true, a => true);
    var maxTxBytes := GenesisPlans(env);
    var c, answer := Genesis(env), Answer([], false);
    var p := Planned(c, 1, [], maxTxBytes, answer).value;
    PlannedIsProposed(c, 1, maxTxBytes, answer, 0, p);
    var block := Proposals.Injected(c, 1, p);
    PreparedIndex(c, 1, [], maxTxBytes, answer, block);
    s := Step(c, Block(1, 0, block, own), answer);
  }

  /** The theorems about committed blocks are about something: a chain can start, whatever its authority. */
  lemma {:induction false} CommittedBlocksExist(authority: bytes, own: nat -> Meters) returns (truth: Truth, s: Step)
    ensures s.c.env.authority == authority && Committed(truth, s)
  {
    hide Accepted;
    s := GenesisStep(authority, own);
    truth := (n: nat) => [];
  }

  /**
   * An event lost to a race: Ethereum block 1 has one event. The validator's query finds no entry for it;
   * then the sidecar stores the block and moves its last block; then the query reads the last block and
   * answers that there are no events, and the block that says so is accepted.
   */
  lemma {:induction false} RaceLosesEvent(node: Node, e: Event, authority: bytes, own: nat -> Meters)
    returns (env: Env, states: seq<System>, acts: seq<Action>)
    requires TruthOf(node, 1) == [e]
    ensures Behaviour(node, env, states, acts) && |acts| == 3 && acts[2].Commit? && MisledAt(node, states, acts, 2)
    ensures states[3].st.lastSynced == Some(1) && RelayedBy(acts, 3) == []
  {
    hide TruthOf, Accepted, ReadIndex, After;
    var s := GenesisStep(authority, own);
    env := s.c.env;
    var x := Fresh(1);
    var y := Side(Added(x.store, TruthMap(node, 1, 1)), Storing(1), -1, {});
    var z := y.(store := y.store.(last := 1), writer := Idle);
    assert StoresWindow(node, x, y) && MovesLast(y, z);
    var a := System(s.c.st, [x], [1]);
    states := [a, a.(sides := [y]), a.(sides := [z]), System(After(s), [z], [1])];
    acts := [Move(0), Move(0), Commit(s, 0, Reads(0, 0, 2))];
    assert HeardBy(states, 2, 0, Reads(0, 0, 2), s.answer);
    assert Does(node, env, states, 0, acts[0]) && Does(node, env, states, 1, acts[1]) && Does(node, env, states, 2, acts[2]);
    SilentBlock(s);
    OneCommitRelays(acts, s);
  }

  lemma {:induction false} OneCommitRelays(acts: seq<Action>, s: Step)
    requires |acts| == 3 && acts[0].Move? && acts[1].Move? && acts[2].Commit? && acts[2].s == s && TxsOf(s) == []
    ensures RelayedBy(acts, 3) == []
  {
    hide TxsOf;
    assert RelayedBy(acts, 0) == [];
    assert RelayedBy(acts, 1) == RelayedBy(acts, 0) + [];
    assert RelayedBy(acts, 2) == RelayedBy(acts, 1) + [];
    assert RelayedBy(acts, 3) == RelayedBy(acts, 2) + TxsOf(s);
  }

  // ----- Libraries with one deposit, one hollow authorisation and one of a message nobody registered

  const PAID := Any([1], [2])
  const UNKNOWN := Any([], [3])
  const DEPOSITED := Event(DEPOSIT, "", [], 0, 0, [])
  const HOLLOWED := Event(AUTHORIZE, "", [], 0, 0, [])
  const FOREIGN := Event(AUTHORIZE, "", [1], 0, 0, [])

  lemma {:induction false} SmallLibraries(authority: bytes) returns (env: Env)
    ensures env.authority == authority && Faithful(env)
    ensures Valid(env, "", DEPOSITED) && Messages(env, DEPOSITED) == Some([PAID])
    ensures Valid(env, "", HOLLOWED) && Messages(env, HOLLOWED) == Some([])
    ensures Valid(env, "", FOREIGN) && Messages(env, FOREIGN) == Some([UNKNOWN])
    ensures forall s: nat :: env.decode(RawTx([UNKNOWN], s)).None?
    ensures forall a: string :: env.mappedAddress(a).Some?
  {
    hide Faithful, RawTx;
    var named := (a: Any) => a.typeUrl != [];
    env := FaithfulLibrariesExist(
      authority, (d: bytes) => Some(ParsedDeposit(true, PAID)),
      (d: bytes) => Some(ParsedAuthorize(true, "", Some(if d == [] then [] else [UNKNOWN]))), (a: string) => Some(a),
      named, named);
    assert UNKNOWN in [UNKNOWN] && !named(UNKNOWN);
  }

  /** A chain with no gas limit and a MsgSupplyDelta every fifth block, which events of any size up to `max` fit. */
  ghost function Small(env: Env, max: nat, st: State): Ctx {
    Ctx(env, Params("", max, 5, 0, (space: nat) => 0), 0, Some({}), st)
  }

  lemma {:induction false} SmallIsWellFormed(env: Env, max: nat, st: State)
    requires Faithful(env)
    ensures WellFormed(Small(env, max, st)) && Validated(Small(env, max, st))
  {
    hide Faithful;
  }

  /** Without a gas limit, a block that relays everything pending is accepted if what follows decodes. */
  lemma {:induction false} SmallAccepts(c: Ctx, height: nat, time: int, answer: Answer, p: Plan, rest: seq<bytes>)
    requires WellFormed(c) && Pending(c, height, answer) == Some(p) && !answer.failed
    requires c.maxGas == 0 && Decodable(rest, c.env.decode)
    ensures Accepts(c, height, time, Proposals.Injected(c, height, p) + rest, answer)
  {
    hide WellFormed, Validated, Pending, Accepts, Proposals.Injected, Verified, Decodable;
    WellFormedIsFaithful(c);
    PendingShape(c, height, answer, p);
    InjectedFree(c, height, answer, p, p, |p.txs|);
    FreeGas(Proposals.Injected(c, height, p), rest, c.env.decode);
    VerifiedUnlimited(Proposals.Injected(c, height, p) + rest, c.env.decode, 0, c.maxGas);
    FullBlockAccepted(c, height, time, answer, p, rest);
  }

  // ----- A hollow event

  ghost function HollowChain(env: Env): Ctx {
    Small(env, TxSize(RawTx([], 2)), State(Some(0), Some(0), None, 0, None))
  }

  lemma EmptyDecodes(env: Env, s: nat)
    requires Faithful(env)
    ensures env.decode(RawTx([], s)).Some?
  {
    assert forall m: Any | m in [] :: env.registered(m);
  }

  lemma {:induction false} HollowPending(env: Env) returns (p: Plan)
    requires Faithful(env) && Valid(env, "", HOLLOWED) && Messages(env, HOLLOWED) == Some([])
    requires forall a: string :: env.mappedAddress(a).Some?
    ensures WellFormed(HollowChain(env)) && Validated(HollowChain(env))
    ensures Pending(HollowChain(env), 1, Answer([HOLLOWED], false)) == Some(p) && |p.txs| == 1
    ensures HollowAt(HollowChain(env), 1, Answer([HOLLOWED], false), 0)
  {
    hide Faithful, RawTx, TxSize, Valid, Generated;
    var c, answer := HollowChain(env), Answer([HOLLOWED], false);
    SmallIsWellFormed(env, TxSize(RawTx([], 2)), c.st);
    EmptyDecodes(env, 2);
    assert EventSeq(c, 1, 0) == 2;
    assert !Halting(env, c.params, HOLLOWED, 2);
    assert NoneHalts(c, 1, answer);
    assert Hollow(env, c.params, {}, answer.events[0], 2);
    PendingIff(c, 1, answer);
    p := Pending(c, 1, answer).value;
    PendingShape(c, 1, answer, p);
  }

  /**
   * One hollow event is enough: the block that relays it is accepted, the event's transaction is never
   * seen, and the native transaction after it skips the ante chain with infinite gas meters.
   */
  lemma {:induction false} HollowEventSkipsNative(authority: bytes, own: nat -> Meters, fails: nat -> nat)
    returns (c: Ctx, b: Block, answer: Answer)
    ensures WellFormed(c) && c.env.authority == authority && c.st.index.None? && Accepts(c, b.height, b.time, b.txs, answer)
    ensures |b.txs| == 3 && ReadIndex(c.env, b.txs[0]).Some? && InjectedTotal(c, b) == 1
    ensures |RunBlock(c, b, fails).outcomes| == 3
    ensures RunBlock(c, b, fails).outcomes[1] == Unseen && RunBlock(c, b, fails).outcomes[2] == Injected(FREE)
  {
    hide Faithful, WellFormed, Validated, Accepts, Pending, Seen, HollowAt, RunBlock, ReadIndex, Valid, Messages, Seqs,
         SupplyTxs, SupplyDeltaTx, Decodable, InjectedTotal, StateFound, TxSize, RawTx;
    var env := SmallLibraries(authority);
    var p := HollowPending(env);
    c, answer := HollowChain(env), Answer([HOLLOWED], false);
    SmallBlock(env, TxSize(RawTx([], 2)), c.st, 1);
    PendingShape(c, 1, answer, p);
    IndexReadsBack(c, p.msg, Seqs(c, 1).index);
    var native := SupplyDeltaTx(authority, 9);
    SupplyTxSeen(c, 9);
    SeenDecodes(env, native);
    SmallAccepts(c, 1, 0, answer, p, [native]);
    b := Block(1, 0, Proposals.Injected(c, 1, p) + [native], own);
    HollowBlockRuns(c, b, answer, p, native, fails);
  }

  lemma SeenDecodes(env: Env, tx: bytes)
    requires Seen(env, tx)
    ensures Decodable([tx], env.decode)
  {
  }

  lemma {:induction false} HollowBlockRuns(c: Ctx, b: Block, answer: Answer, p: Plan, native: bytes, fails: nat -> nat)
    requires WellFormed(c) && c.st.index.None? && b.height > 0 && SupplyTxs(c, b.height) == [] && |p.txs| == 1
    requires b.txs == Proposals.Injected(c, b.height, p) + [native] && Accepts(c, b.height, b.time, b.txs, answer)
    requires Seen(c.env, native) && c.st.offset.Some? && HollowAt(c, b.height, answer, 0)
    requires p.msg.num == 1 && ReadIndex(c.env, IndexTx(p.msg, Seqs(c, b.height).index)) == Some(p.msg)
    ensures |b.txs| == 3 && ReadIndex(c.env, b.txs[0]).Some? && InjectedTotal(c, b) == 1
    ensures |RunBlock(c, b, fails).outcomes| == 3
    ensures RunBlock(c, b, fails).outcomes[1] == Unseen && RunBlock(c, b, fails).outcomes[2] == Injected(FREE)
  {
    hide WellFormed, Validated, Accepts, Seen, HollowAt, RunBlock, ReadIndex, IndexTx, SeenCount, Seqs;
    WellFormedIsFaithful(c);
    assert b.txs == [IndexTx(p.msg, Seqs(c, b.height).index), p.txs[0], native];
    NativeOutcome(c, b, answer, fails, 2);
    assert b.txs[2..2] == [];
    NoneSeen(c.env);
    assert HollowCount(c, b.height, answer, 1) == 1 + HollowCount(c, b.height, answer, 0);
    RunBlockRest(c, b, answer, fails);
    InjectedAreSeen(c, b, answer);
    RunRestVerdict(c.env, b, 1, BlockIndex(1, 0, 0), fails, 1);
  }

  // ----- A message nobody registered

  /**
   * One valid Authorize event within the size limit, with a message of a type that is not registered, and
   * the chain stands: nobody who hears of it can propose, whatever the native transactions and the block
   * size, and nothing that syncs is accepted.
   */
  lemma {:induction false} ForeignEventHalts(authority: bytes) returns (c: Ctx, answer: Answer)
    ensures WellFormed(c) && c.env.authority == authority && StateFound(c) && c.st.offset == Some(0)
    ensures answer == Answer([FOREIGN], false) && Valid(c.env, c.params.proxy, FOREIGN)
    ensures Encodable(c.env, c.params, FOREIGN, Seqs(c, 1).firstEvent)
    ensures forall native: seq<bytes>, maxTxBytes: nat :: Prepare(c, 1, native, maxTxBytes, answer).None?
    ensures forall time: int, txs: seq<bytes> :: Accepts(c, 1, time, txs, answer) ==> Idles(c, time, txs)
  {
    hide Faithful, WellFormed, RawTx, TxSize, Valid, Messages, Accepts, Prepare, Idles;
    var env := SmallLibraries(authority);
    c, answer := Small(env, TxSize(RawTx([UNKNOWN], 2)), State(Some(0), Some(0), None, 0, None)), Answer([FOREIGN], false);
    SmallIsWellFormed(env, TxSize(RawTx([UNKNOWN], 2)), c.st);
    assert Seqs(c, 1).firstEvent == 2;
    assert Halting(env, c.params, answer.events[0], 2 + 0);
    forall native: seq<bytes>, maxTxBytes: nat
      ensures Prepare(c, 1, native, maxTxBytes, answer).None?
    {
      HaltedChain(c, 1, native, maxTxBytes, 0, [], answer);
    }
    forall time: int, txs: seq<bytes> | Accepts(c, 1, time, txs, answer)
      ensures Idles(c, time, txs)
    {
      HaltedChain(c, 1, [], 0, time, txs, answer);
    }
  }

  // ----- A sequence used twice

  /** The bytes that a deposit of `PAID` may take at any of the sequences below. */
  ghost function Enough(): nat {
    TxSize(RawTx([PAID], 6)) + TxSize(RawTx([PAID], 7)) + TxSize(RawTx([PAID], 8))
  }

  lemma {:induction false} DepositsPending(c: Ctx, height: nat, n: nat) returns (p: Plan)
    requires WellFormed(c) && Valid(c.env, c.params.proxy, DEPOSITED) && Messages(c.env, DEPOSITED) == Some([PAID])
    requires c.params.maxEventBytes == Enough() && StateFound(c) && c.st.offset.value + 1 == n <= 3
    requires Seqs(c, height).firstEvent + n - 1 == 8
    ensures Pending(c, height, Answer(seq(n, _ => DEPOSITED), false)) == Some(p)
    ensures p.msg.newBlock && p.msg.num == 1 && p.txs == [RawTx([PAID], 8)]
  {
    hide WellFormed, Validated, Faithful, RawTx, TxSize, Valid, Messages, Generated, Seqs, TranslateOne, Pending;
    WellFormedIsFaithful(c);
    var answer := Answer(seq(n, _ => DEPOSITED), false);
    forall i | 0 <= i < n
      ensures !Halting(c.env, c.params, answer.events[i], Seqs(c, height).firstEvent + i)
    {
      assert 6 <= Seqs(c, height).firstEvent + i <= 8;
    }
    PendingIff(c, height, answer);
    p := Pending(c, height, answer).value;
    PendingShape(c, height, answer, p);
    PendingAt(c, height, answer, p, 0);
    TranslationOutcome(c.env, c.params, c.blocked.value, DEPOSITED, c.st.lastSynced.value + 1, 8);
    assert p.txs == [p.txs[0]];
  }

  /**
   * Two of three deposits of block 10 are relayed and the counter is at 4. The third travels at sequence 8,
   * the counter moves to 6, and the only deposit of block 11, which is the same one made again, travels at
   * sequence 8 too: two committed blocks in a row carry the same bytes, hence the same hash.
   */
  lemma {:induction false} SequenceReuse(authority: bytes, own: nat -> Meters) returns (truth: Truth, steps: seq<Step>)
    ensures Run(truth, steps) && |steps| == 2 && steps[0].c.env.authority == authority
    ensures |steps[0].b.txs| == |steps[1].b.txs| == 2 && steps[0].b.txs[1] == steps[1].b.txs[1]
  {
    hide Faithful, RawTx, TxSize, Valid, Messages, Accepts, WellFormed, After, ReadIndex, Run, Accepted;
    var env := SmallLibraries(authority);
    truth := (n: nat) => if n == 10 then seq(3, _ => DEPOSITED) else seq(1, _ => DEPOSITED);
    var s := DepositStep(env, State(Some(9), Some(2), None, 4, None), 1, 3, own);
    var t := DepositStep(env, After(s), 2, 1, own);
    steps := [s, t];
    assert truth(10) == s.answer.events && truth(11) == t.answer.events;
    PairRuns(truth, s, t);
  }

  lemma {:induction false} PairRuns(truth: Truth, s: Step, t: Step)
    requires Committed(truth, s) && Committed(truth, t) && s.b.txs != [] && ReadIndex(s.c.env, s.b.txs[0]).Some?
    requires t.c.env == s.c.env && t.c.st == After(s)
    ensures Run(truth, [s, t])
  {
    hide Committed, ReadIndex, After;
  }

  lemma {:induction false} DepositStep(env: Env, st: State, height: nat, n: nat, own: nat -> Meters) returns (s: Step)
    requires Faithful(env) && Valid(env, "", DEPOSITED) && Messages(env, DEPOSITED) == Some([PAID])
    requires st.lastSynced.Some? && st.offset.Some? && st.index.None? && st.offset.value + 1 == n <= 3
    requires height % 5 != 0 && st.lastSequence + 1 + n == 8
    ensures Accepted(s) && s.c.env == env && s.c.st == st && s.answer == Answer(seq(n, _ => DEPOSITED), false)
    ensures |s.b.txs| == 2 && s.b.txs[1] == RawTx([PAID], 8) && ReadIndex(env, s.b.txs[0]).Some?
    ensures After(s) == State(Some(st.lastSynced.value + 1), Some(0), Some(0), st.lastSequence + 2, None)
  {
    hide Faithful, RawTx, TxSize, Valid, Messages, Accepts, WellFormed, Validated, Pending, Seqs, Enough, ReadIndex, IndexTx,
         After, SupplyTxs, Decodable, StateFound;
    var c, answer := Small(env, Enough(), st), Answer(seq(n, _ => DEPOSITED), false);
    SmallIsWellFormed(env, Enough(), st);
    SmallBlock(env, Enough(), st, height);
    var p := DepositsPending(c, height, n);
    SmallAccepts(c, height, 0, answer, p, []);
    var txs := Proposals.Injected(c, height, p);
    assert txs + [] == txs;
    s := Step(c, Block(height, 0, txs, own), answer);
    IndexReadsBack(c, p.msg, Seqs(c, height).index);
    AcceptedAfter(s);
  }

  lemma {:induction false} SmallBlock(env: Env, max: nat, st: State, height: nat)
    requires height % 5 != 0 && Validated(Small(env, max, st)) && st.lastSynced.Some? && st.offset.Some?
    ensures var c := Small(env, max, st);
            && SupplyTxs(c, height) == [] && Seqs(c, height).firstEvent == st.lastSequence + 2
            && Decodable([], env.decode) && StateFound(c)
  {
  }
}
