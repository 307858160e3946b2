/** The bridge module's state, and the MsgIndex handler that moves it forward. */
module Keeper {
  import opened Base
  import opened MsgIndexes
  import opened Events

  /** Counters of the block being executed: injected after MsgIndex, seen by the ante handler, failed. */
  datatype BlockIndex = BlockIndex(total: nat, ante: nat, failed: nat)

  datatype State = State(
    lastSynced: Option<nat>,
    offset: Option<nat>,
    lastUpdate: Option<int>,
    lastSequence: nat,
    index: Option<BlockIndex>)

  /** `IsMsgSupplyDeltaBlock`. */
  predicate IsSupplyDeltaBlock(params: Params, height: nat)
    requires params.supplyDeltaPeriod > 0
  {
    height % params.supplyDeltaPeriod == 0
  }

  datatype Sequences = Sequences(index: nat, supplyDelta: nat, firstEvent: nat)

  /** `generateTxSequences`. */
  function TxSequences(lastSequence: nat, supplyDelta: bool): Sequences {
    var next := lastSequence + 1;
    if supplyDelta then Sequences(next, next + 1, next + 2) else Sequences(next, 0, next + 1)
  }

  /** `ValidateBeforeProcessing`. */
  predicate Processable(m: MsgIndex, lastSynced: nat, offset: nat) {
    !(offset > 0 && m.num == 0) && m.block == lastSynced + 1
  }

  /** The MsgIndex handler's own work; None is an error, whose writes are dropped. */
  function IndexHandler(s: State, m: MsgIndex, params: Params, height: nat, time: int): Option<State> {
    if s.lastSynced.None? || s.offset.None? || !Processable(m, s.lastSynced.value, s.offset.value)
       || params.supplyDeltaPeriod == 0 || s.index.Some? then None
    else
      var supply := if IsSupplyDeltaBlock(params, height) then 1 else 0;
      Some(State(
        if m.IsFullSync() then Some(m.block) else s.lastSynced,
        if m.IsFullSync() then Some(0)
        else if m.IsPartialSync() then Some(s.offset.value + m.num) else s.offset,
        if m.IsFullSync() || m.IsPartialSync() then Some(time) else s.lastUpdate,
        s.lastSequence + m.num + supply + 1,
        Some(BlockIndex(m.num + supply, 0, 0))))
  }

  /** `TryExecSpecialMessage` around it: a failure is counted in the index, never returned. */
  function ExecIndex(s: State, m: MsgIndex, env: Env, params: Params, height: nat, time: int): State {
    if m.authority != env.authority then s
    else
      var r := IndexHandler(s, m, params, height, time);
      if r.Some? then r.value else NoteFailure(s)
  }

  /**
   * What the handler lets through, for any message whatever: the one that names the next Ethereum block and
   * brings an event if that block is half consumed, once a block. The relay position then moves to the next
   * Ethereum block, forward within this one, or not at all, and the sequence counter moves forward.
   */
  lemma HandlerGuards(s: State, m: MsgIndex, params: Params, height: nat, time: int)
    ensures var r := IndexHandler(s, m, params, height, time);
            && (r.Some? <==>
                  && s.lastSynced.Some? && s.offset.Some? && s.index.None? && params.supplyDeltaPeriod != 0
                  && m.block == s.lastSynced.value + 1
                  && (m.num == 0 ==> s.offset.value == 0))
            && (r.Some? ==>
                  && r.value.lastSynced == Some(if m.newBlock then s.lastSynced.value + 1 else s.lastSynced.value)
                  && r.value.offset == Some(if m.newBlock then 0 else s.offset.value + m.num)
                  && r.value.lastUpdate == (if m.newBlock || m.num > 0 then Some(time) else s.lastUpdate)
                  && r.value.index.Some? && r.value.index.value.ante == 0 && r.value.index.value.failed == 0
                  && r.value.lastSequence == s.lastSequence + 1 + r.value.index.value.total
                  && r.value.index.value.total == m.num + (if height % params.supplyDeltaPeriod == 0 then 1 else 0))
  {
  }

  /** A message of anyone but the authority changes nothing; one that the handler refuses stops the chain at the end of the block. */
  lemma RefusedIndex(s: State, m: MsgIndex, env: Env, params: Params, height: nat, time: int)
    ensures m.authority != env.authority ==> ExecIndex(s, m, env, params, height, time) == s
    ensures m.authority == env.authority && IndexHandler(s, m, params, height, time).None? ==>
              var t := ExecIndex(s, m, env, params, height, time);
              && t == s.(index := t.index)
              && forall seen: nat :: t.index.Some? && EndBlock(t.(index := Some(t.index.value.(ante := seen)))).None?
  {
  }

  function NoteFailure(s: State): State {
    var i := if s.index.Some? then s.index.value else BlockIndex(0, 0, 0);
    s.(index := Some(i.(failed := i.failed + 1)))
  }

  /** `EndBlock`: every injected transaction was seen and no special message failed; then the index goes. */
  function EndBlock(s: State): Option<State> {
    if s.index.None? || s.index.value.ante != s.index.value.total || s.index.value.failed > 0 then None
    else Some(s.(index := None))
  }
}
