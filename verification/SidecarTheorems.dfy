/**
 * Every reachable state of the sidecar's store, and what a query may return while the store is being
 * written: one writer fetches and calibrates, queries read the store in three separate steps.
 */
module SidecarTheorems {
  import opened Base
  import opened Events
  import opened Stores
  import opened Sidecar

  /** Between the two store calls of a fetch, the window's events are in but the last block is not moved. */
  datatype Writer = Idle | Storing(upTo: int)

  /**
   * The store and its writer. Two pieces of history: `floor`, the highest Sequencer height ever
   * calibrated with, and `gaps`, the blocks that calibration fast-forwarded over without fetching.
   */
  datatype Side = Side(store: Store, writer: Writer, floor: int, gaps: set<int>)

  function Fresh(start: nat): Side {
    Side(Store(map[], start, start - 1), Idle, -1, {})
  }

  function Bound(s: Side): int {
    if s.writer.Idle? then s.store.last else s.writer.upTo
  }

  ghost predicate StoresWindow(node: Node, a: Side, b: Side) {
    && a.writer.Idle? && b.writer.Storing? && b.writer.upTo > a.store.last
    && b == a.(store := Added(a.store, TruthMap(node, a.store.last + 1, b.writer.upTo)), writer := b.writer)
  }

  ghost predicate MovesLast(a: Side, b: Side) {
    a.writer.Storing? && b == a.(store := a.store.(last := a.writer.upTo), writer := Idle)
  }

  /** The heights after `lo`, up to and including `hi`. */
  function Heights(lo: int, hi: int): (s: set<int>)
    ensures forall n :: n in s <==> lo < n <= hi
    decreases hi - lo
  {
    if hi <= lo then {} else Heights(lo, hi - 1) + {hi}
  }

  ghost predicate Calibrates(a: Side, b: Side, l: nat) {
    && a.writer.Idle?
    && b == Side(Calibrated(a.store, Some(l)), Idle, if l > a.floor then l else a.floor,
                 a.gaps + Heights(a.store.last, l))
  }

  ghost predicate Next(node: Node, a: Side, b: Side) {
    || a == b
    || StoresWindow(node, a, b)
    || MovesLast(a, b)
    || exists l: nat :: Calibrates(a, b, l)
  }

  /** The store window: both bounds, the entries between them, and where the floor stands. */
  ghost predicate Windowed(start: nat, s: Side) {
    && start <= s.store.start <= s.store.last + 1
    && s.floor <= s.store.last <= Bound(s)
    && (s.store.start == start || s.store.start <= s.floor + 1)
    && (forall n :: n in s.store.blocks ==> s.store.start <= n <= Bound(s))
    && (forall n :: n in s.gaps ==> n <= s.floor)
  }

  /** The entries: never anything but the truth, and nothing missing except what was skipped or pruned. */
  ghost predicate Exact(node: Node, s: Side) {
    && (forall n :: n in s.store.blocks ==> s.store.blocks[n] == TruthOf(node, n) && TruthOf(node, n) != [] && n !in s.gaps)
    && (forall n: nat :: s.store.start <= n <= Bound(s) && n !in s.gaps && n !in s.store.blocks ==> TruthOf(node, n) == [])
  }

  lemma {:induction false} FreshHolds(node: Node, start: nat)
    ensures Windowed(start, Fresh(start)) && Exact(node, Fresh(start))
  {
    hide TruthOf;
  }

  lemma {:induction false} NextKeepsWindow(node: Node, start: nat, a: Side, b: Side)
    requires Windowed(start, a) && Next(node, a, b)
    ensures Windowed(start, b)
    ensures a.store.start <= b.store.start && a.store.last <= b.store.last && a.floor <= b.floor && a.gaps <= b.gaps
    ensures Bound(a) <= Bound(b)
  {
    hide TruthOf;
  }

  lemma {:induction false} NextKeepsExact(node: Node, start: nat, a: Side, b: Side)
    requires Windowed(start, a) && Exact(node, a) && Next(node, a, b)
    ensures Exact(node, b)
  {
    hide TruthOf;
    if StoresWindow(node, a, b) {
      WindowKeepsExact(node, start, a, b);
    } else if exists l: nat :: Calibrates(a, b, l) {
      var l: nat :| Calibrates(a, b, l);
      CalibrationKeepsExact(node, start, a, b, l);
    }
  }

  lemma {:induction false} WindowKeepsExact(node: Node, start: nat, a: Side, b: Side)
    requires Windowed(start, a) && Exact(node, a) && StoresWindow(node, a, b)
    ensures Exact(node, b)
  {
    hide TruthOf;
    var w := TruthMap(node, a.store.last + 1, b.writer.upTo);
    forall n | n in b.store.blocks
      ensures b.store.blocks[n] == TruthOf(node, n) && TruthOf(node, n) != [] && n !in b.gaps
    {
      if n in a.store.blocks {
        assert n !in w;
        assert b.store.blocks[n] == a.store.blocks[n] + [];
      } else {
        assert n in w && b.store.blocks[n] == [] + w[n];
      }
    }
    forall n: nat | b.store.start <= n <= Bound(b) && n !in b.gaps && n !in b.store.blocks
      ensures TruthOf(node, n) == []
    {
      assert n !in w && n !in a.store.blocks;
    }
  }

  lemma {:induction false} CalibrationKeepsExact(node: Node, start: nat, a: Side, b: Side, l: nat)
    requires Windowed(start, a) && Exact(node, a) && Calibrates(a, b, l)
    ensures Exact(node, b)
  {
    hide TruthOf;
    forall n: nat | b.store.start <= n <= Bound(b) && n !in b.gaps && n !in b.store.blocks
      ensures TruthOf(node, n) == []
    {
      assert n <= a.store.last;
      assert n !in a.store.blocks;
    }
  }

  // ----- Runs of the sidecar

  /** A run from the fresh store: fetches and calibrations in any order, at any heights. */
  ghost predicate Trace(node: Node, start: nat, run: seq<Side>) {
    && run != [] && run[0] == Fresh(start)
    && (forall i, j :: 0 <= i < j < |run| && j == i + 1 ==> Next(node, run[i], run[j]))
  }

  /** The store window invariant, in every state of every run. */
  lemma {:induction false} AlwaysExact(node: Node, start: nat, run: seq<Side>, i: nat)
    requires Trace(node, start, run) && i < |run|
    ensures Windowed(start, run[i]) && Exact(node, run[i])
  {
    hide Next, Windowed, Exact;
    if i == 0 {
      FreshHolds(node, start);
    } else {
      AlwaysExact(node, start, run, i - 1);
      NextKeepsWindow(node, start, run[i - 1], run[i]);
      NextKeepsExact(node, start, run[i - 1], run[i]);
    }
  }

  /** Bounds, floor and gaps only grow along a run. */
  lemma {:induction false} OnlyGrows(node: Node, start: nat, run: seq<Side>, i: nat, j: nat)
    requires Trace(node, start, run) && i <= j < |run|
    ensures run[i].store.start <= run[j].store.start && run[i].store.last <= run[j].store.last
    ensures run[i].floor <= run[j].floor && run[i].gaps <= run[j].gaps && Bound(run[i]) <= Bound(run[j])
    decreases j
  {
    hide Next, Windowed, Exact, Bound;
    if i < j {
      OnlyGrows(node, start, run, i, j - 1);
      AlwaysExact(node, start, run, j - 1);
      NextKeepsWindow(node, start, run[j - 1], run[j]);
    }
  }

  // ----- Queries

  function Stored(s: Store, n: nat): Option<seq<Event>> {
    if n in s.blocks then Some(s.blocks[n]) else None
  }

  /**
   * A query reads the entry in one state, the oldest block in a later one and the last block in a
   * third. For every block and every interleaving, its answer differs from the truth if and only if
   * the block does have events, lies between the bounds it read, and at the first read was either
   * not stored yet or already fast-forwarded over.
   */
  lemma {:induction false} WrongAnswerIff(node: Node, start: nat, run: seq<Side>, i: nat, j: nat, k: nat, n: nat)
    requires Trace(node, start, run) && i <= j <= k < |run|
    ensures var r := QueryAnswer(n, Stored(run[i].store, n), run[j].store.start, run[k].store.last + 1);
            && (r.Some? && r.value != TruthOf(node, n) <==>
                  && TruthOf(node, n) != []
                  && run[j].store.start <= n <= run[k].store.last
                  && (Bound(run[i]) < n || n in run[i].gaps))
            && (r.None? <==> n !in run[i].store.blocks && !(run[j].store.start <= n <= run[k].store.last))
  {
    hide Next, TruthOf;
    AlwaysExact(node, start, run, i);
    OnlyGrows(node, start, run, i, j);
    hide Trace;
    var s := run[i];
    if n !in s.store.blocks && run[j].store.start <= n {
      if n <= Bound(s) && n !in s.gaps {
        assert TruthOf(node, n) == [];
      }
    }
  }

  /**
   * Sidecar exactness: in every reachable state, a query of a block above every height the Sequencer
   * has reported, with no update between its reads, returns exactly the block's events or an error;
   * an error only if the block is not synced yet or precedes the configured start.
   */
  lemma {:induction false} QueryIsExact(node: Node, start: nat, run: seq<Side>, i: nat, n: nat)
    requires Trace(node, start, run) && i < |run| && n > run[i].floor
    ensures var s := run[i].store;
            var r := QueryAnswer(n, Stored(s, n), s.start, s.last + 1);
            && (r.Some? ==> r.value == TruthOf(node, n))
            && (start <= n <= s.last ==> r.Some?)
            && (r.None? ==> n < start || n > s.last)
  {
    hide Next, TruthOf;
    WrongAnswerIff(node, start, run, i, i, i, n);
    AlwaysExact(node, start, run, i);
  }

  /** Both bounds, the floor and the skipped blocks are no less than they were. */
  ghost predicate Grown(a: Side, b: Side) {
    && a.store.start <= b.store.start && a.store.last <= b.store.last
    && a.floor <= b.floor && a.gaps <= b.gaps && Bound(a) <= Bound(b)
  }

  /** The block has events, was beyond what was fetched at the first read, and is synced at the last. */
  ghost predicate Overtaken(node: Node, first: Side, third: Side, n: nat) {
    TruthOf(node, n) != [] && Bound(first) < n <= third.store.last
  }

  /** Above the floor, the three reads mislead iff an update overtook them, and then they show no event. */
  lemma {:induction false} ReadsMisleadIff(node: Node, start: nat, first: Side, second: Side, third: Side, n: nat)
    requires Windowed(start, first) && Exact(node, first) && Windowed(start, second)
    requires Grown(first, second) && Grown(second, third) && n > third.floor
    ensures var r := QueryAnswer(n, Stored(first.store, n), second.store.start, third.store.last + 1);
            && (r.Some? ==> (r.value != TruthOf(node, n) <==> Overtaken(node, first, third, n)))
            && (Overtaken(node, first, third, n) ==> r == Some([]))
  {
    hide TruthOf;
    if n !in first.store.blocks && second.store.start <= n && n <= Bound(first) {
      assert n !in first.gaps;
    }
  }

  /** One fetch of the sidecar is two of these steps: the window is stored, then the last block moves. */
  lemma {:induction false} FetchIsTwoSteps(node: Node, start: nat, a: Side, upTo: int) returns (mid: Side, b: Side)
    requires Windowed(start, a) && a.writer.Idle? && upTo > a.store.last
    ensures StoresWindow(node, a, mid) && MovesLast(mid, b)
    ensures b == a.(store := Synced(a.store, node, upTo))
  {
    hide TruthOf, TruthMap, Added;
    SyncedNothing(a.store, node);
    SyncedInWindows(a.store, node, a.store.last, upTo);
    mid := a.(store := Added(a.store, TruthMap(node, a.store.last + 1, upTo)), writer := Storing(upTo));
    b := mid.(store := mid.store.(last := upTo), writer := Idle);
  }

  /** A wrong answer by interleaving: block 5 is stored and the last block moved between first and last read. */
  lemma {:induction false} RaceExample(node: Node, e: Event) returns (run: seq<Side>)
    requires TruthOf(node, 5) == [e]
    ensures Trace(node, 5, run) && |run| == 3
    ensures QueryAnswer(5, Stored(run[0].store, 5), run[0].store.start, run[2].store.last + 1) == Some([]) != Some(TruthOf(node, 5))
  {
    hide TruthOf;
    var w := Side(Added(Fresh(5).store, TruthMap(node, 5, 5)), Storing(5), -1, {});
    run := [Fresh(5), w, w.(store := w.store.(last := 5), writer := Idle)];
    assert StoresWindow(node, run[0], run[1]) && MovesLast(run[1], run[2]);
  }

  /** A wrong answer below the floor: calibrating with height 20 marks block 7 synced without fetching it. */
  lemma {:induction false} FastForwardExample(node: Node, e: Event) returns (run: seq<Side>)
    requires TruthOf(node, 7) == [e]
    ensures Trace(node, 5, run) && |run| == 2
    ensures var s := run[1].store;
            QueryAnswer(7, Stored(s, 7), s.start, s.last + 1) == Some([]) != Some(TruthOf(node, 7))
  {
    hide TruthOf, Heights;
    var b := Side(Calibrated(Fresh(5).store, Some(20)), Idle, 20, Heights(4, 20));
    run := [Fresh(5), b];
    assert Fresh(5).gaps + b.gaps == b.gaps;
    assert Calibrates(run[0], run[1], 20);
  }
}
