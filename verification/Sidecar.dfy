/** The sidecar at work: fetching windows of Ethereum blocks into the store, and answering queries. */
module Sidecar {
  import opened Base
  import opened Events
  import opened Logs
  import opened Stores

  /** Finalized Ethereum as the node serves it: the contract's logs by block. */
  datatype Node = Node(chain: nat -> seq<EthLog>, extract: Extractor)

  /** The node files every log under its own block. */
  ghost predicate Placed(node: Node) {
    forall n: nat, i :: 0 <= i < |node.chain(n)| ==> node.chain(n)[i].block == n
  }

  /** The logs of every block are in order and extract. */
  ghost predicate WellOrdered(node: Node) {
    forall n: nat :: Sequential(Live(node.chain(n)), n) && Extractable(Live(node.chain(n)), node.extract)
  }

  /** The specification of the cache: block `n`'s recognised, non-removed logs, in order. */
  function TruthOf(node: Node, n: nat): seq<Event> {
    EventsOf(node.chain(n), n, node.extract)
  }

  /** What `eth_getLogs` returns for blocks `from` to `upTo`. */
  function Range(node: Node, from: nat, upTo: int): seq<EthLog>
    decreases upTo + 1 - from
  {
    if upTo < from then [] else Range(node, from, upTo - 1) + node.chain(upTo)
  }

  // ----- One window is exactly the truth about its blocks

  lemma {:induction false} LiveAppend(a: seq<EthLog>, b: seq<EthLog>)
    ensures Live(a + b) == Live(a) + Live(b)
  {
    if b == [] {
      assert a + b == a;
    } else {
      assert (a + b)[..|a + b| - 1] == a + b[..|b| - 1];
      LiveAppend(a, b[..|b| - 1]);
    }
  }

  lemma {:induction false} EventsOfAppend(a: seq<EthLog>, b: seq<EthLog>, n: nat, extract: Extractor)
    ensures EventsOf(a + b, n, extract) == EventsOf(a, n, extract) + EventsOf(b, n, extract)
  {
    if b == [] {
      assert a + b == a;
    } else {
      assert (a + b)[..|a + b| - 1] == a + b[..|b| - 1];
      EventsOfAppend(a, b[..|b| - 1], n, extract);
    }
  }

  lemma {:induction false} NoEventsElsewhere(logs: seq<EthLog>, n: nat, extract: Extractor)
    requires forall i :: 0 <= i < |logs| ==> logs[i].block != n
    ensures EventsOf(logs, n, extract) == []
  {
    if logs != [] {
      NoEventsElsewhere(logs[..|logs| - 1], n, extract);
    }
  }

  lemma {:induction false} RangeHoldsTruth(node: Node, from: nat, upTo: int, n: nat)
    requires Placed(node)
    ensures EventsOf(Range(node, from, upTo), n, node.extract) == if from <= n <= upTo then TruthOf(node, n) else []
    decreases upTo + 1 - from
  {
    if upTo >= from {
      RangeHoldsTruth(node, from, upTo - 1, n);
      EventsOfAppend(Range(node, from, upTo - 1), node.chain(upTo), n, node.extract);
      if n != upTo {
        NoEventsElsewhere(node.chain(upTo), n, node.extract);
      }
    }
  }

  function EntryOf(s: Store, n: nat): seq<Event> {
    if n in s.blocks then s.blocks[n] else []
  }

  /** A block whose logs arrive in two parts is stored whole, in order: the second part is appended to the first. */
  lemma {:induction false} PartsAreAppended(s: Store, a: seq<EthLog>, b: seq<EthLog>, i: nat, j: nat, extract: Extractor, n: nat)
    requires Processed(a, i, extract).Some? && Processed(b, j, extract).Some? && s.blocks == map[]
    ensures var t := Added(Added(s, Processed(a, i, extract).value.blocks), Processed(b, j, extract).value.blocks);
            EntryOf(t, n) == EventsOf(a + b, n, extract) && t.start == s.start && t.last == s.last
  {
    hide Processed, EventsOf;
    GroupsByBlock(a, i, extract, n);
    GroupsByBlock(b, j, extract, n);
    EventsOfAppend(a, b, n, extract);
  }

  /** The truth about blocks `from` to `upTo`, as the store keeps it: silent blocks have no entry. */
  ghost function TruthMap(node: Node, from: int, upTo: int): Grouped {
    map n: nat | from <= n <= upTo && TruthOf(node, n) != [] :: TruthOf(node, n)
  }

  /** Whatever window is fetched, a successful grouping is the truth about exactly those blocks. */
  lemma {:induction false} WindowIsTruth(node: Node, from: nat, upTo: int, m: Grouped)
    requires Placed(node)
    requires Processed(Range(node, from, upTo), from, node.extract).Some?
    requires m == Processed(Range(node, from, upTo), from, node.extract).value.blocks
    ensures m == TruthMap(node, from, upTo)
  {
    forall n: nat
      ensures n in m <==> n in TruthMap(node, from, upTo)
      ensures n in m ==> m[n] == TruthMap(node, from, upTo)[n]
    {
      GroupsByBlock(Range(node, from, upTo), from, node.extract, n);
      RangeHoldsTruth(node, from, upTo, n);
    }
  }

  lemma {:induction false} LivePlaced(logs: seq<EthLog>, lo: int, hi: int)
    requires forall i :: 0 <= i < |logs| ==> lo <= logs[i].block <= hi
    ensures forall i :: 0 <= i < |Live(logs)| ==> lo <= Live(logs)[i].block <= hi
  {
    if logs != [] {
      LivePlaced(logs[..|logs| - 1], lo, hi);
    }
  }

  lemma {:induction false} RangePlaced(node: Node, from: nat, upTo: int)
    requires Placed(node)
    ensures forall i :: 0 <= i < |Range(node, from, upTo)| ==> from <= Range(node, from, upTo)[i].block <= upTo
    decreases upTo + 1 - from
  {
    if upTo >= from {
      RangePlaced(node, from, upTo - 1);
    }
  }

  /** On a well-ordered chain no window is ever refused. */
  lemma {:induction false} WindowSucceeds(node: Node, from: nat, upTo: int)
    requires Placed(node) && WellOrdered(node)
    ensures Processed(Range(node, from, upTo), from, node.extract).Some?
  {
    RangeInOrder(node, from, upTo);
    SucceedsIffSequential(Range(node, from, upTo), from, node.extract);
  }

  lemma {:induction false} RangeInOrder(node: Node, from: nat, upTo: int)
    requires Placed(node) && WellOrdered(node)
    ensures Sequential(Live(Range(node, from, upTo)), from) && Extractable(Live(Range(node, from, upTo)), node.extract)
    decreases upTo + 1 - from
  {
    if upTo >= from {
      hide Live, Sequential, InOrder;
      RangeInOrder(node, from, upTo - 1);
      var a, b := Range(node, from, upTo - 1), node.chain(upTo);
      LiveAppend(a, b);
      RangePlaced(node, from, upTo - 1);
      LivePlaced(a, from, upTo - 1);
      LivePlaced(b, upTo, upTo);
      assert Sequential(Live(b), upTo) && Extractable(Live(b), node.extract);
      SequentialAppend(Live(a), Live(b), from, upTo);
    }
  }

  // ----- FetchAndProcessLogs

  datatype Fetched = Fetched(events: Grouped, last: int)

  /** The window is capped at `range` blocks; an empty window, a node that is down, and refused logs are errors. */
  method FetchAndProcessLogs(node: Node, from: nat, upTo: int, range: nat, down: bool) returns (r: Option<Fetched>)
    requires Placed(node)
    ensures r.Some? ==> r.value.last == (if upTo > from + range - 1 then from + range - 1 else upTo) >= from
    ensures r.Some? ==> r.value.events == TruthMap(node, from, r.value.last)
    ensures !down && WellOrdered(node) && range > 0 && upTo >= from ==> r.Some?
  {
    var last := upTo;
    var maxToBlock := from + (range - 1);
    if last > maxToBlock {
      last := maxToBlock;
    }
    if from > last || down {
      return None;
    }
    var logs := Range(node, from, last);
    var events := ProcessLogs(logs, from, node.extract);
    if events.None? {
      assert !WellOrdered(node) by {
        if WellOrdered(node) {
          WindowSucceeds(node, from, last);
        }
      }
      return None;
    }
    WindowIsTruth(node, from, last, events.value);
    return Some(Fetched(events.value, last));
  }

  // ----- fetchAndStoreLogsUptoBlock

  /** No entry lies beyond the last synced block. */
  ghost predicate Bounded(s: Store) {
    s.last >= -1 && forall n :: n in s.blocks ==> n <= s.last
  }

  /** The store after fetching everything up to `upTo`, as one unbounded fetch would leave it. */
  ghost function Synced(s: Store, node: Node, upTo: int): Store {
    Store(s.blocks + TruthMap(node, s.last + 1, upTo), s.start, upTo)
  }

  /** Fetching in two windows is fetching in one; nothing is stored twice. */
  lemma {:induction false} SyncedInWindows(s: Store, node: Node, mid: int, upTo: int)
    requires Bounded(s) && s.last <= mid <= upTo
    ensures Bounded(Synced(s, node, mid))
    ensures Added(Synced(s, node, mid), TruthMap(node, mid + 1, upTo)).(last := upTo) == Synced(s, node, upTo)
  {
    hide TruthOf;
    var a := Added(Synced(s, node, mid), TruthMap(node, mid + 1, upTo)).blocks;
    var b := Synced(s, node, upTo).blocks;
    forall n: nat
      ensures n in a <==> n in b
      ensures n in a ==> a[n] == b[n]
    {
      SyncedEntry(s, node, mid, upTo, n);
    }
  }

  lemma {:induction false} SyncedEntry(s: Store, node: Node, mid: int, upTo: int, n: nat)
    requires Bounded(s) && s.last <= mid <= upTo
    ensures var a := Added(Synced(s, node, mid), TruthMap(node, mid + 1, upTo)).blocks;
            var b := Synced(s, node, upTo).blocks;
            (n in a <==> n in b) && (n in a ==> a[n] == b[n])
  {
    hide TruthOf;
    var m, w := Synced(s, node, mid).blocks, TruthMap(node, mid + 1, upTo);
    assert n in m <==> n in s.blocks || (s.last < n <= mid && TruthOf(node, n) != []);
    assert n in w <==> mid < n <= upTo && TruthOf(node, n) != [];
    assert n in m && n in w ==> false;
  }

  /** One turn of the fetch loop: fetch a window, store its events, move the last synced block. */
  method FetchWindow(store: EventStore, node: Node, upTo: int, down: bool, ghost before: Store) returns (ok: bool)
    requires Placed(node) && Bounded(before) && -1 <= before.last <= store.lastSyncedBlock
    requires store.State() == Synced(before, node, store.lastSyncedBlock)
    modifies store
    ensures !ok ==> store.State() == old(store.State())
    ensures ok ==> old(store.lastSyncedBlock) < store.lastSyncedBlock <= upTo
    ensures ok ==> store.State() == Synced(before, node, store.lastSyncedBlock)
    ensures !down && WellOrdered(node) && store.maxQueryRange > 0 && upTo > old(store.lastSyncedBlock) ==> ok
  {
    hide TruthMap, Added, Synced, WellOrdered, Placed, Bounded;
    var from := store.GetNextQueryBlock();
    var fetched := FetchAndProcessLogs(node, from, upTo, store.maxQueryRange, down);
    if fetched.None? {
      return false;
    }
    SyncedInWindows(before, node, store.lastSyncedBlock, fetched.value.last);
    store.AddEvents(fetched.value.events);
    store.SetLastSyncedBlock(fetched.value.last);
    return true;
  }

  /**
   * The fetch loop. Whatever the window size and wherever it stops, the store is what one fetch up
   * to that point would leave: every missing block is stored once, none beyond the target. It
   * reaches the target unless there is nothing to fetch, the node fails or the logs are refused.
   */
  method FetchAndStoreLogsUptoBlock(store: EventStore, node: Node, upTo: int, down: nat -> bool) returns (ok: bool)
    requires Placed(node) && Bounded(store.State())
    modifies store
    ensures store.State() == Synced(old(store.State()), node, store.lastSyncedBlock)
    ensures old(store.lastSyncedBlock) <= store.lastSyncedBlock
    ensures store.lastSyncedBlock > old(store.lastSyncedBlock) ==> store.lastSyncedBlock <= upTo
    ensures ok ==> store.lastSyncedBlock == upTo
    ensures upTo > old(store.lastSyncedBlock) && store.maxQueryRange > 0 && WellOrdered(node) && (forall k :: !down(k)) ==> ok
  {
    ghost var before := store.State();
    assert before.last >= -1;
    hide TruthMap, Synced, WellOrdered, Placed, Bounded;
    var attempt: nat := 0;
    SyncedNothing(before, node);
    while true
      invariant before.last <= store.lastSyncedBlock
      invariant store.lastSyncedBlock > before.last ==> store.lastSyncedBlock < upTo
      invariant store.State() == Synced(before, node, store.lastSyncedBlock)
      decreases upTo - store.lastSyncedBlock
    {
      var fetched := FetchWindow(store, node, upTo, down(attempt), before);
      if !fetched {
        return false;
      }
      if store.lastSyncedBlock == upTo {
        return true;
      }
      attempt := attempt + 1;
    }
  }

  lemma {:induction false} SyncedNothing(s: Store, node: Node)
    ensures Synced(s, node, s.last) == s
  {
    assert TruthMap(node, s.last + 1, s.last) == map[];
  }

  /** `getMaxSyncableBlock`: the finalized height, unless an earlier end block is configured. */
  function MaxSyncable(finalized: nat, end: Option<nat>): (m: nat)
    ensures m <= finalized && (end.Some? ==> m <= end.value)
    ensures m == finalized || Some(m) == end
  {
    if end.Some? && end.value < finalized then end.value else finalized
  }

  /** `catchUpWithEthereumLogs`: no block is fetched before it is final, or past the configured end. */
  method CatchUp(store: EventStore, node: Node, finalized: Option<nat>, down: nat -> bool) returns (ok: bool)
    requires Placed(node) && Bounded(store.State())
    modifies store
    ensures store.State() == Synced(old(store.State()), node, store.lastSyncedBlock)
    ensures old(store.lastSyncedBlock) <= store.lastSyncedBlock
    ensures store.lastSyncedBlock > old(store.lastSyncedBlock) ==>
              finalized.Some? && store.lastSyncedBlock <= MaxSyncable(finalized.value, store.endQueryBlock)
    ensures ok ==> finalized.Some? && store.lastSyncedBlock >= MaxSyncable(finalized.value, store.endQueryBlock)
    ensures finalized.Some? && store.maxQueryRange > 0 && WellOrdered(node) && (forall k :: !down(k)) ==> ok
  {
    SyncedNothing(store.State(), node);
    if finalized.None? {
      return false;
    }
    var target := MaxSyncable(finalized.value, store.endQueryBlock);
    if target > store.lastSyncedBlock {
      ok := FetchAndStoreLogsUptoBlock(store, node, target, down);
    } else {
      ok := true;
    }
  }

  // ----- QueryBlockEvents

  /** The answer, from what the three reads returned; None is an error. */
  function QueryAnswer(n: nat, stored: Option<seq<Event>>, start: nat, next: int): Option<seq<Event>> {
    if stored.Some? then stored
    else if start <= n < next then Some([])
    else None
  }

  /** `QueryBlockEvents`, with its three reads of the store. */
  method QueryBlockEvents(store: EventStore, n: int) returns (r: Option<seq<Event>>)
    ensures n < 0 ==> r.None?
    ensures n >= 0 ==> r == QueryAnswer(n, if n in store.blocksMap then Some(store.blocksMap[n]) else None,
                                        store.startQueryBlock, store.lastSyncedBlock + 1)
  {
    if n < 0 {
      return None;
    }
    var events := store.GetStoredEvents(n);
    if events.None? {
      var start := store.startQueryBlock;
      var next := store.GetNextQueryBlock();
      if n >= start && n < next {
        return Some([]);
      }
      return None;
    }
    return events;
  }
}
