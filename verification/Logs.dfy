/** From Ethereum logs to events by block: the sequential check and the grouping loop. */
module Logs {
  import opened Base
  import opened Events

  /** A log as the node returns it; indices are below 2^63, so their conversion to int is exact. */
  datatype EthLog = EthLog(block: nat, txIndex: nat, logIndex: nat, removed: bool, topics: seq<bytes>, data: bytes)

  /** What extraction makes of a log: an event, nothing, or an error. */
  datatype Extracted = Recognised(event: Event) | Unrecognised | Malformed

  type Extractor = EthLog -> Extracted

  // ----- ValidateIsLogSequential

  datatype Cursor = Cursor(block: nat, txIndex: int, logIndex: int)

  /** The cursor after a log that may follow it, None if it may not. */
  function Advanced(c: Cursor, log: EthLog): Option<Cursor> {
    if log.block < c.block then None
    else
      var tx, idx := if log.block != c.block then -1 else c.txIndex, if log.block != c.block then -1 else c.logIndex;
      if log.txIndex < tx || log.logIndex <= idx then None
      else Some(Cursor(log.block, log.txIndex, log.logIndex))
  }

  /** The three values the check reads and writes through its pointers. */
  class CursorRef {
    var lastBlockNumber: nat
    var lastTxIndex: int
    var lastLogIndex: int

    function Value(): Cursor
      reads this
    {
      Cursor(lastBlockNumber, lastTxIndex, lastLogIndex)
    }

    constructor (from: nat)
      ensures Value() == Cursor(from, -1, -1)
    {
      lastBlockNumber, lastTxIndex, lastLogIndex := from, -1, -1;
    }

    /** On failure the indices may already have been reset, but the caller gives up then. */
    method ValidateIsLogSequential(log: EthLog) returns (ok: bool)
      modifies this
      ensures ok <==> Advanced(old(Value()), log).Some?
      ensures ok ==> Advanced(old(Value()), log) == Some(Value())
    {
      if log.block != lastBlockNumber {
        if log.block < lastBlockNumber {
          return false;
        }
        lastTxIndex := -1;
        lastLogIndex := -1;
      }
      if log.txIndex < lastTxIndex || log.logIndex <= lastLogIndex {
        return false;
      }
      lastBlockNumber, lastTxIndex, lastLogIndex := log.block, log.txIndex, log.logIndex;
      return true;
    }
  }

  // ----- processLogs

  type Grouped = map<nat, seq<Event>>

  function Put(m: Grouped, n: nat, e: Event): Grouped {
    m[n := (if n in m then m[n] else []) + [e]]
  }

  datatype Progress = Progress(cursor: Cursor, blocks: Grouped)

  /** One turn of the loop. */
  function ProcessOne(p: Progress, log: EthLog, extract: Extractor): Option<Progress> {
    if log.removed then Some(p)
    else
      var c := Advanced(p.cursor, log);
      if c.None? then None
      else
        match extract(log)
        case Malformed => None
        case Unrecognised => Some(Progress(c.value, p.blocks))
        case Recognised(e) => Some(Progress(c.value, Put(p.blocks, log.block, e)))
  }

  /** The loop so far, as a fold from the left. */
  function Processed(logs: seq<EthLog>, from: nat, extract: Extractor): Option<Progress> {
    if logs == [] then Some(Progress(Cursor(from, -1, -1), map[]))
    else
      var before := Processed(logs[..|logs| - 1], from, extract);
      if before.None? then None else ProcessOne(before.value, logs[|logs| - 1], extract)
  }

  lemma {:induction false} FailureStays(logs: seq<EthLog>, from: nat, extract: Extractor, i: nat)
    requires i <= |logs| && Processed(logs[..i], from, extract).None?
    ensures Processed(logs, from, extract).None?
    decreases |logs|
  {
    if i < |logs| {
      assert logs[..|logs| - 1][..i] == logs[..i];
      FailureStays(logs[..|logs| - 1], from, extract, i);
    } else {
      assert logs[..i] == logs;
    }
  }

  method ProcessLogs(logs: seq<EthLog>, from: nat, extract: Extractor) returns (r: Option<Grouped>)
    ensures r == match Processed(logs, from, extract) case None => None case Some(p) => Some(p.blocks)
  {
    if |logs| == 0 {
      return Some(map[]);
    }
    var tempBlocks: Grouped := map[];
    var cursor := new CursorRef(from);
    for i := 0 to |logs|
      invariant Processed(logs[..i], from, extract) == Some(Progress(cursor.Value(), tempBlocks))
    {
      var log := logs[i];
      assert logs[..i + 1][..i] == logs[..i];
      if !log.removed {
        var ok := cursor.ValidateIsLogSequential(log);
        if !ok {
          FailureStays(logs, from, extract, i + 1);
          return None;
        }
        match extract(log)
        case Malformed =>
          FailureStays(logs, from, extract, i + 1);
          return None;
        case Unrecognised =>
        case Recognised(e) =>
          tempBlocks := Put(tempBlocks, log.block, e);
      }
    }
    assert logs[..|logs|] == logs;
    return Some(tempBlocks);
  }

  // ----- What it means

  /** The logs that count. */
  function Live(logs: seq<EthLog>): seq<EthLog> {
    if logs == [] then []
    else
      var rest := Live(logs[..|logs| - 1]);
      if logs[|logs| - 1].removed then rest else rest + [logs[|logs| - 1]]
  }

  /** Two live logs in order: blocks do not decrease; within a block, transactions do not and log indices increase. */
  predicate InOrder(a: EthLog, b: EthLog) {
    a.block <= b.block && (a.block == b.block ==> a.txIndex <= b.txIndex && a.logIndex < b.logIndex)
  }

  ghost predicate Sequential(logs: seq<EthLog>, from: nat) {
    && (forall i :: 0 <= i < |logs| ==> logs[i].block >= from)
    && (forall i, j :: 0 <= i < j < |logs| ==> InOrder(logs[i], logs[j]))
  }

  ghost predicate Extractable(logs: seq<EthLog>, extract: Extractor) {
    forall i :: 0 <= i < |logs| ==> extract(logs[i]) != Malformed
  }

  lemma {:induction false} SequentialAppend(x: seq<EthLog>, y: seq<EthLog>, from: nat, mid: nat)
    requires Sequential(x, from) && Sequential(y, mid) && from <= mid
    requires forall i :: 0 <= i < |x| ==> x[i].block < mid
    ensures Sequential(x + y, from)
  {
    var all := x + y;
    forall i, j | 0 <= i < j < |all|
      ensures InOrder(all[i], all[j])
    {
      if i < |x| && j >= |x| {
        assert all[i].block < mid <= y[j - |x|].block;
      }
    }
  }

  /** The cursor stands at the last live log, or at the start. */
  ghost predicate CursorAt(c: Cursor, live: seq<EthLog>, from: nat) {
    if live == [] then c == Cursor(from, -1, -1)
    else var l := live[|live| - 1]; c == Cursor(l.block, l.txIndex, l.logIndex)
  }

  lemma {:induction false} SequentialSnoc(live: seq<EthLog>, x: EthLog, from: nat)
    ensures Sequential(live + [x], from) <==>
            Sequential(live, from) && x.block >= from && (live != [] ==> InOrder(live[|live| - 1], x))
  {
    var all := live + [x];
    assert all[|live|] == x;
    if Sequential(all, from) {
      assert forall i :: 0 <= i < |live| ==> live[i] == all[i];
      assert live != [] ==> InOrder(all[|live| - 1], all[|live|]);
    }
    if Sequential(live, from) && x.block >= from && (live != [] ==> InOrder(live[|live| - 1], x)) {
      forall i, j | 0 <= i < j < |all|
        ensures InOrder(all[i], all[j])
      {
        if j == |live| && i < |live| - 1 {
          assert InOrder(live[i], live[|live| - 1]);
        }
      }
    }
  }

  /** processLogs succeeds exactly on live logs that are in order from `from` on and all extract. */
  lemma {:induction false} SucceedsIffSequential(logs: seq<EthLog>, from: nat, extract: Extractor)
    ensures Processed(logs, from, extract).Some? <==> Sequential(Live(logs), from) && Extractable(Live(logs), extract)
    ensures Processed(logs, from, extract).Some? ==> CursorAt(Processed(logs, from, extract).value.cursor, Live(logs), from)
    decreases |logs|
  {
    if logs != [] {
      var init, x := logs[..|logs| - 1], logs[|logs| - 1];
      SucceedsIffSequential(init, from, extract);
      if !x.removed {
        var live := Live(init);
        SequentialSnoc(live, x, from);
        ExtractableSnoc(live, x, extract);
        if Processed(init, from, extract).Some? {
          AdvancedIff(Processed(init, from, extract).value.cursor, live, x, from);
        }
      }
    }
  }

  lemma ExtractableSnoc(live: seq<EthLog>, x: EthLog, extract: Extractor)
    ensures Extractable(live + [x], extract) <==> Extractable(live, extract) && extract(x) != Malformed
  {
    var all := live + [x];
    assert all[|live|] == x && forall i :: 0 <= i < |live| ==> all[i] == live[i];
  }

  lemma AdvancedIff(c: Cursor, live: seq<EthLog>, x: EthLog, from: nat)
    requires CursorAt(c, live, from) && Sequential(live, from)
    ensures Advanced(c, x).Some? <==> x.block >= from && (live != [] ==> InOrder(live[|live| - 1], x))
  {
  }

  /** The recognised events of block `n` among the logs, in order. */
  function EventsOf(logs: seq<EthLog>, n: nat, extract: Extractor): seq<Event> {
    if logs == [] then []
    else
      var rest, x := EventsOf(logs[..|logs| - 1], n, extract), logs[|logs| - 1];
      if !x.removed && x.block == n && extract(x).Recognised? then rest + [extract(x).event] else rest
  }

  /** All recognised events, in order. */
  function AllEvents(logs: seq<EthLog>, extract: Extractor): seq<Event> {
    if logs == [] then []
    else
      var rest, x := AllEvents(logs[..|logs| - 1], extract), logs[|logs| - 1];
      if !x.removed && extract(x).Recognised? then rest + [extract(x).event] else rest
  }

  /** The grouping holds, for each block, exactly its recognised events; blocks without any have no entry. */
  lemma {:induction false} GroupsByBlock(logs: seq<EthLog>, from: nat, extract: Extractor, n: nat)
    requires Processed(logs, from, extract).Some?
    ensures var m := Processed(logs, from, extract).value.blocks;
            && (n in m <==> EventsOf(logs, n, extract) != [])
            && (n in m ==> m[n] == EventsOf(logs, n, extract))
    decreases |logs|
  {
    if logs != [] {
      GroupsByBlock(logs[..|logs| - 1], from, extract, n);
    }
  }

  /** The events of blocks `from` to `upTo`, read in block order. */
  function ByBlock(logs: seq<EthLog>, from: nat, upTo: int, extract: Extractor): seq<Event>
    requires upTo >= from - 1
    decreases upTo + 1 - from
  {
    if upTo < from then [] else ByBlock(logs, from, upTo - 1, extract) + EventsOf(logs, upTo, extract)
  }

  lemma {:induction false} NoEventsBeyond(logs: seq<EthLog>, n: nat, extract: Extractor)
    requires forall i :: 0 <= i < |Live(logs)| ==> Live(logs)[i].block != n
    ensures EventsOf(logs, n, extract) == []
  {
    if logs != [] {
      var init, x := logs[..|logs| - 1], logs[|logs| - 1];
      if !x.removed {
        assert Live(logs)[|Live(init)|] == x;
      }
      forall i | 0 <= i < |Live(init)|
        ensures Live(init)[i].block != n
      {
        assert Live(logs)[i] == Live(init)[i];
      }
      NoEventsBeyond(init, n, extract);
    }
  }

  lemma {:induction false} ByBlockSame(a: seq<EthLog>, b: seq<EthLog>, from: nat, upTo: int, extract: Extractor)
    requires upTo >= from - 1
    requires forall n :: from <= n <= upTo ==> EventsOf(a, n, extract) == EventsOf(b, n, extract)
    ensures ByBlock(a, from, upTo, extract) == ByBlock(b, from, upTo, extract)
    decreases upTo + 1 - from
  {
    if upTo >= from {
      ByBlockSame(a, b, from, upTo - 1, extract);
    }
  }

  lemma {:induction false} EventsSnoc(init: seq<EthLog>, x: EthLog, n: nat, extract: Extractor)
    ensures EventsOf(init + [x], n, extract)
         == EventsOf(init, n, extract) + (if !x.removed && x.block == n && extract(x).Recognised? then [extract(x).event] else [])
  {
    var all := init + [x];
    assert all[..|all| - 1] == init && all[|all| - 1] == x;
  }

  /** In order, a log is the last of its block and nothing of a later block came before it. */
  lemma {:induction false} SilentAfter(init: seq<EthLog>, x: EthLog, from: nat, n: nat, extract: Extractor)
    requires !x.removed && Sequential(Live(init + [x]), from) && n > x.block
    ensures EventsOf(init, n, extract) == []
  {
    var all, live := init + [x], Live(init);
    assert all[..|all| - 1] == init;
    assert Live(all) == live + [x];
    forall i | 0 <= i < |live|
      ensures live[i].block != n
    {
      assert InOrder(Live(all)[i], Live(all)[|live|]);
    }
    NoEventsBeyond(init, n, extract);
  }

  /** A last block with a new event at its end, and silence after it. */
  lemma {:induction false} ByBlockSnoc(init: seq<EthLog>, x: EthLog, from: nat, upTo: int, extract: Extractor)
    requires from <= x.block <= upTo && !x.removed && Sequential(Live(init + [x]), from)
    ensures ByBlock(init + [x], from, upTo, extract)
         == ByBlock(init, from, upTo, extract) + (if extract(x).Recognised? then [extract(x).event] else [])
    decreases upTo
  {
    hide EventsOf, Live, Sequential;
    EventsSnoc(init, x, upTo, extract);
    if upTo == x.block {
      forall n | from <= n <= upTo - 1
        ensures EventsOf(init + [x], n, extract) == EventsOf(init, n, extract)
      {
        EventsSnoc(init, x, n, extract);
      }
      ByBlockSame(init + [x], init, from, upTo - 1, extract);
    } else {
      ByBlockSnoc(init, x, from, upTo - 1, extract);
      SilentAfter(init, x, from, upTo, extract);
    }
  }

  /** Taking the events block by block gives back exactly the recognised live logs, in order. */
  lemma {:induction false} GroupingKeepsOrder(logs: seq<EthLog>, from: nat, upTo: int, extract: Extractor)
    requires Sequential(Live(logs), from) && upTo >= from - 1
    requires forall i :: 0 <= i < |Live(logs)| ==> Live(logs)[i].block <= upTo
    ensures ByBlock(logs, from, upTo, extract) == AllEvents(logs, extract)
    decreases |logs|
  {
    if logs == [] {
      ByBlockEmpty(from, upTo, extract);
    } else {
      var init, x := logs[..|logs| - 1], logs[|logs| - 1];
      assert init + [x] == logs;
      if x.removed {
        GroupingKeepsOrder(init, from, upTo, extract);
        ByBlockSame(logs, init, from, upTo, extract);
      } else {
        var live := Live(init);
        assert Live(logs) == live + [x] && Live(logs)[|live|] == x;
        SequentialSnoc(live, x, from);
        assert forall i :: 0 <= i < |live| ==> live[i] == Live(logs)[i];
        GroupingKeepsOrder(init, from, upTo, extract);
        ByBlockSnoc(init, x, from, upTo, extract);
      }
    }
  }

  /** The map read in block order, from `from` to `upTo`. */
  function ReadInOrder(m: Grouped, from: nat, upTo: int): seq<Event>
    requires upTo >= from - 1
    decreases upTo + 1 - from
  {
    if upTo < from then []
    else ReadInOrder(m, from, upTo - 1) + (if upTo in m then m[upTo] else [])
  }

  lemma {:induction false} ReadsByBlock(logs: seq<EthLog>, start: nat, extract: Extractor, from: nat, upTo: int)
    requires Processed(logs, start, extract).Some? && upTo >= from - 1
    ensures ReadInOrder(Processed(logs, start, extract).value.blocks, from, upTo) == ByBlock(logs, from, upTo, extract)
    decreases upTo + 1 - from
  {
    hide Processed, EventsOf;
    if upTo >= from {
      ReadsByBlock(logs, start, extract, from, upTo - 1);
      GroupsByBlock(logs, start, extract, upTo);
    }
  }

  /**
   * Whatever logs are accepted, reading the resulting map in block order, up to any block at or past
   * the last live log, gives back exactly the recognised live logs, in order.
   */
  lemma {:induction false} MapReadsBack(logs: seq<EthLog>, from: nat, upTo: int, extract: Extractor)
    requires Processed(logs, from, extract).Some? && upTo >= from - 1
    requires forall i :: 0 <= i < |Live(logs)| ==> Live(logs)[i].block <= upTo
    ensures ReadInOrder(Processed(logs, from, extract).value.blocks, from, upTo) == AllEvents(logs, extract)
  {
    hide Processed, Live, ByBlock, AllEvents, ReadInOrder;
    SucceedsIffSequential(logs, from, extract);
    GroupingKeepsOrder(logs, from, upTo, extract);
    ReadsByBlock(logs, from, extract, from, upTo);
  }

  lemma {:induction false} ByBlockEmpty(from: nat, upTo: int, extract: Extractor)
    requires upTo >= from - 1
    ensures ByBlock([], from, upTo, extract) == []
    decreases upTo + 1 - from
  {
    if upTo >= from {
      ByBlockEmpty(from, upTo - 1, extract);
    }
  }
}
