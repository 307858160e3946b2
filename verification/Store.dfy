/** The sidecar's event store: a pruned cache of events by Ethereum block. */
module Stores {
  import opened Base
  import opened Events
  import opened Logs

  const PRUNE_BUFFER: nat := 10

  /** The store's content: events by block, the oldest block it may hold, and the last one synced. */
  datatype Store = Store(blocks: Grouped, start: nat, last: int)

  /** `AddEvents`: appends to entries that exist, creates the others. */
  function Added(s: Store, m: Grouped): Store {
    s.(blocks := map n | n in s.blocks.Keys + m.Keys ::
         (if n in s.blocks then s.blocks[n] else []) + (if n in m then m[n] else []))
  }

  /** The range that calibrating with height `l` prunes, if any. */
  predicate Prunes(s: Store, l: nat) {
    l >= s.start && l > PRUNE_BUFFER && |s.blocks| > 0 && l - PRUNE_BUFFER > s.start
  }

  /** `CalibrateBlocksAndPruneLogs`; None is a height that could not be fetched. */
  function Calibrated(s: Store, height: Option<nat>): Store {
    if height.None? then s
    else
      var l := height.value;
      var last := if l > s.last then l else s.last;
      if Prunes(s, l) then
        Store(map n | n in s.blocks && !(s.start <= n <= l - PRUNE_BUFFER) :: s.blocks[n], l - PRUNE_BUFFER + 1, last)
      else s.(last := last)
  }

  /** `t` is `s` with the entries of `m` for the blocks in `done` appended. */
  ghost predicate Merged(s: Grouped, m: Grouped, done: set<nat>, t: Grouped)
    requires done <= m.Keys
  {
    && t.Keys == s.Keys + done
    && forall n :: n in t ==> t[n] == (if n in s then s[n] else []) + (if n in done then m[n] else [])
  }

  lemma {:induction false} MergedStep(s: Grouped, m: Grouped, done: set<nat>, t: Grouped, n: nat)
    requires done <= m.Keys && n in m && n !in done && Merged(s, m, done, t)
    ensures Merged(s, m, done + {n}, t[n := (if n in t then t[n] else []) + m[n]])
  {
    if n in t {
      assert t[n] == s[n];
    }
  }

  lemma {:induction false} MergedAll(s: Store, m: Grouped, t: Grouped)
    requires Merged(s.blocks, m, m.Keys, t)
    ensures t == Added(s, m).blocks
  {
  }

  class EventStore {
    var blocksMap: Grouped
    var startQueryBlock: nat
    const endQueryBlock: Option<nat>
    var lastSyncedBlock: int
    const maxQueryRange: nat

    function State(): Store
      reads this
    {
      Store(blocksMap, startQueryBlock, lastSyncedBlock)
    }

    constructor (start: nat, end: Option<nat>, range: nat)
      ensures State() == Store(map[], start, start - 1) && endQueryBlock == end && maxQueryRange == range
    {
      blocksMap, startQueryBlock, lastSyncedBlock := map[], start, start - 1;
      endQueryBlock, maxQueryRange := end, range;
    }

    /** The loop over the given map, in no particular order. */
    method AddEvents(m: Grouped)
      modifies this
      ensures State() == Added(old(State()), m)
    {
      var todo := m.Keys;
      while todo != {}
        invariant todo <= m.Keys
        invariant startQueryBlock == old(startQueryBlock) && lastSyncedBlock == old(lastSyncedBlock)
        invariant Merged(old(blocksMap), m, m.Keys - todo, blocksMap)
        decreases todo
      {
        var n :| n in todo;
        assert m.Keys - (todo - {n}) == m.Keys - todo + {n};
        MergedStep(old(blocksMap), m, m.Keys - todo, blocksMap, n);
        if n in blocksMap {
          blocksMap := blocksMap[n := blocksMap[n] + m[n]];
        } else {
          blocksMap := blocksMap[n := m[n]];
        }
        todo := todo - {n};
      }
      assert m.Keys - {} == m.Keys;
      MergedAll(old(State()), m, blocksMap);
    }

    method GetStoredEvents(n: nat) returns (events: Option<seq<Event>>)
      ensures events == if n in blocksMap then Some(blocksMap[n]) else None
    {
      if n in blocksMap {
        return Some(blocksMap[n]);
      }
      return None;
    }

    method SetLastSyncedBlock(n: int)
      modifies this
      ensures State() == old(State()).(last := n)
    {
      lastSyncedBlock := n;
    }

    /** `GetNextQueryBlock`. */
    method GetNextQueryBlock() returns (n: int)
      ensures n == lastSyncedBlock + 1
    {
      n := lastSyncedBlock + 1;
    }

    method CalibrateBlocksAndPruneLogs(height: Option<nat>)
      modifies this
      ensures State() == Calibrated(old(State()), height)
    {
      if height.None? {
        return;
      }
      var l := height.value;
      if l > lastSyncedBlock {
        lastSyncedBlock := l;
      }
      if l >= startQueryBlock && l > PRUNE_BUFFER {
        var pruneFrom, pruneUntil := startQueryBlock, l - PRUNE_BUFFER;
        if |blocksMap| > 0 && pruneUntil > pruneFrom {
          for i := pruneFrom to pruneUntil + 1
            invariant startQueryBlock == pruneFrom && lastSyncedBlock == Calibrated(old(State()), height).last
            invariant blocksMap == map n | n in old(blocksMap) && !(pruneFrom <= n < i) :: old(blocksMap)[n]
          {
            blocksMap := map n | n in blocksMap && n != i :: blocksMap[n];
          }
          startQueryBlock := pruneUntil + 1;
        }
      }
    }
  }

  /**
   * Calibrating with height `l` removes exactly the blocks from the start up to `l - 10`, and none if
   * that is the start block alone; what stays is unchanged, and both bounds move forward only.
   */
  lemma CalibrationIsGentle(s: Store, l: nat)
    requires s.start <= s.last + 1
    ensures var t := Calibrated(s, Some(l));
            && t.start >= s.start && t.start <= t.last + 1
            && t.last == (if l > s.last then l else s.last)
            && (t.start > s.start ==> t.start == l - 10 + 1)
            && (t.start > s.start <==> s.blocks != map[] && s.start < l - 10)
            && (forall n :: n in s.blocks ==>
                  (n !in t.blocks <==> s.start <= n <= l - 10 && s.start < l - 10))
            && (forall n :: n in t.blocks ==> n in s.blocks && t.blocks[n] == s.blocks[n])
            && Calibrated(s, None) == s
  {
  }
}
