/**
 * Filling a block: the transaction selector, the default proposal handler that feeds it, and the
 * verifier's stepwise gas check.
 */
module Selection {
  import opened Base
  import opened TxWire

  /** A decoded SDK transaction; a transaction without a gas limit counts as gas zero. */
  datatype SdkTx = SdkTx(msgs: seq<Any>, gas: uint64)

  type Decoder = bytes -> Option<SdkTx>

  /** What the selector has taken so far. */
  datatype Taken = Taken(size: nat, gas: uint64, txs: seq<bytes>)

  const NOTHING: Taken := Taken(0, 0, [])

  /** One call of the selector; `maxGas` zero means no gas limit. Gas is added in uint64. */
  function Take(t: Taken, maxBytes: nat, maxGas: uint64, gas: uint64, tx: bytes): Taken {
    if TxSize(tx) + t.size > maxBytes then t
    else if maxGas == 0 then Taken(t.size + TxSize(tx), t.gas, t.txs + [tx])
    else if Add64(gas, t.gas) > maxGas then t
    else Taken(t.size + TxSize(tx), Add64(t.gas, gas), t.txs + [tx])
  }

  predicate Full(t: Taken, maxBytes: nat, maxGas: uint64) {
    t.size >= maxBytes || (maxGas > 0 && t.gas >= maxGas)
  }

  class TxSelector {
    var totalTxBytes: nat
    var totalTxGas: uint64
    var selectedTxs: seq<bytes>

    function State(): Taken
      reads this
    {
      Taken(totalTxBytes, totalTxGas, selectedTxs)
    }

    constructor ()
      ensures State() == NOTHING
    {
      totalTxBytes, totalTxGas, selectedTxs := 0, 0, [];
    }

    method Clear()
      modifies this
      ensures State() == NOTHING
    {
      totalTxBytes, totalTxGas, selectedTxs := 0, 0, [];
    }

    method SelectTxForProposal(maxBytes: nat, maxGas: uint64, tx: bytes, memTx: SdkTx) returns (stop: bool)
      modifies this
      ensures State() == Take(old(State()), maxBytes, maxGas, memTx.gas, tx)
      ensures stop == Full(State(), maxBytes, maxGas)
    {
      var txSize := TxSize(tx);
      if txSize + totalTxBytes <= maxBytes {
        if maxGas > 0 {
          if Add64(memTx.gas, totalTxGas) <= maxGas {
            totalTxGas := Add64(totalTxGas, memTx.gas);
            totalTxBytes := totalTxBytes + txSize;
            selectedTxs := selectedTxs + [tx];
          }
        } else {
          totalTxBytes := totalTxBytes + txSize;
          selectedTxs := selectedTxs + [tx];
        }
      }
      stop := totalTxBytes >= maxBytes || (maxGas > 0 && totalTxGas >= maxGas);
    }
  }

  /** The default handler for the no-op mempool: feed in order until the selector is full. */
  function Feed(t: Taken, txs: seq<bytes>, decode: Decoder, maxBytes: nat, maxGas: uint64): Option<Taken>
    decreases |txs|
  {
    if txs == [] then Some(t)
    else
      var d := decode(txs[0]);
      if d.None? then None
      else
        var t' := Take(t, maxBytes, maxGas, d.value.gas, txs[0]);
        if Full(t', maxBytes, maxGas) then Some(t') else Feed(t', txs[1..], decode, maxBytes, maxGas)
  }

  method DefaultPrepare(selector: TxSelector, txs: seq<bytes>, decode: Decoder, maxBytes: nat, maxGas: uint64)
    returns (r: Option<seq<bytes>>)
    modifies selector
    ensures r == match Feed(old(selector.State()), txs, decode, maxBytes, maxGas)
                 case None => None
                 case Some(t) => Some(t.txs)
    ensures selector.State() == NOTHING
  {
    var i := 0;
    ghost var start := selector.State();
    assert txs[0..] == txs;
    while i < |txs|
      invariant 0 <= i <= |txs|
      invariant Feed(start, txs, decode, maxBytes, maxGas) == Feed(selector.State(), txs[i..], decode, maxBytes, maxGas)
    {
      var d := decode(txs[i]);
      if d.None? {
        selector.Clear();
        return None;
      }
      assert txs[i..][1..] == txs[i + 1..];
      var stop := selector.SelectTxForProposal(maxBytes, maxGas, txs[i], d.value);
      if stop {
        r := Some(selector.selectedTxs);
        selector.Clear();
        return r;
      }
      i := i + 1;
    }
    r := Some(selector.selectedTxs);
    selector.Clear();
  }

  // ----- The verifier's gas check

  /** `uint64(b.MaxGas)`. */
  function GasWord(maxGas: int): uint64
    requires -0x8000_0000_0000_0000 <= maxGas < 0x8000_0000_0000_0000
  {
    if maxGas < 0 then maxGas + TWO64 else maxGas
  }

  /** `verifyTransactionsInProposal`, from a running total. */
  function Verified(txs: seq<bytes>, decode: Decoder, total: uint64, maxGas: int): bool
    decreases |txs|
  {
    if txs == [] then true
    else
      var d := decode(txs[0]);
      if d.None? then false
      else if maxGas <= 0 then Verified(txs[1..], decode, total, maxGas)
      else
        var total' := Add64(total, d.value.gas);
        total' <= maxGas && Verified(txs[1..], decode, total', maxGas)
  }

  method VerifyTransactionsInProposal(txs: seq<bytes>, decode: Decoder, maxGas: int) returns (ok: bool)
    ensures ok == Verified(txs, decode, 0, maxGas)
  {
    var total: uint64 := 0;
    assert txs[0..] == txs;
    for i := 0 to |txs|
      invariant Verified(txs, decode, 0, maxGas) == Verified(txs[i..], decode, total, maxGas)
    {
      assert txs[i..][1..] == txs[i + 1..];
      var d := decode(txs[i]);
      if d.None? {
        return false;
      }
      if maxGas > 0 {
        total := Add64(total, d.value.gas);
        if total > maxGas {
          return false;
        }
      }
    }
    return true;
  }

  predicate Decodable(txs: seq<bytes>, decode: Decoder) {
    forall i :: 0 <= i < |txs| ==> decode(txs[i]).Some?
  }

  function GasOf(tx: bytes, decode: Decoder): uint64 {
    var d := decode(tx);
    if d.None? then 0 else d.value.gas
  }

  /** The true gas of a list, without wrap-around. */
  function GasSum(txs: seq<bytes>, decode: Decoder): nat {
    if txs == [] then 0 else GasOf(txs[0], decode) + GasSum(txs[1..], decode)
  }

  /**
   * The stepwise check is a check on the total: as long as the gas of the block fits a uint64, it
   * accepts exactly the decodable lists whose total is within the limit.
   */
  lemma {:induction false} VerifiedIsTotalCheck(txs: seq<bytes>, decode: Decoder, total: uint64, maxGas: int)
    requires 0 < maxGas < 0x8000_0000_0000_0000 && total <= maxGas
    requires total + GasSum(txs, decode) < TWO64
    ensures Verified(txs, decode, total, maxGas) <==> Decodable(txs, decode) && total + GasSum(txs, decode) <= maxGas
  {
    if txs != [] {
      var d := decode(txs[0]);
      if d.Some? {
        if total + d.value.gas <= maxGas {
          VerifiedIsTotalCheck(txs[1..], decode, total + d.value.gas, maxGas);
          assert Decodable(txs, decode) <==> Decodable(txs[1..], decode) by {
            assert forall i :: 1 <= i < |txs| ==> txs[i] == txs[1..][i - 1];
          }
        }
      }
    }
  }

  /** What an accepted block says about its true gas: within the limit exactly when the sum fits a uint64. */
  lemma {:induction false} AcceptedGas(txs: seq<bytes>, decode: Decoder, maxGas: int)
    requires 0 < maxGas < 0x8000_0000_0000_0000
    requires Verified(txs, decode, 0, maxGas)
    ensures GasSum(txs, decode) <= maxGas <==> GasSum(txs, decode) < TWO64
  {
    if GasSum(txs, decode) < TWO64 {
      VerifiedIsTotalCheck(txs, decode, 0, maxGas);
    }
  }

  /** Beyond a uint64 the counter wraps and the check accepts a block over the limit. */
  lemma {:induction false} WrappedGasIsAccepted(a: bytes, b: bytes, decode: Decoder, maxGas: int)
    requires 5 <= maxGas < 0x8000_0000_0000_0000
    requires decode(a) == Some(SdkTx([], 5)) && decode(b) == Some(SdkTx([], 0xFFFF_FFFF_FFFF_FFFB))
    ensures Verified([a, b], decode, 0, maxGas) && GasSum([a, b], decode) > maxGas
  {
    var txs := [a, b];
    assert txs[1..] == [b] && [b][1..] == [];
    assert GasSum([b], decode) == 0xFFFF_FFFF_FFFF_FFFB;
    assert Verified([b], decode, 5, maxGas);
  }

  // ----- What the selector delivers

  /** `a` is `b` with some elements left out. */
  ghost predicate Subsequence(a: seq<bytes>, b: seq<bytes>)
    decreases |b|
  {
    if a == [] then true
    else if b == [] then false
    else (a[0] == b[0] && Subsequence(a[1..], b[1..])) || Subsequence(a, b[1..])
  }

  lemma {:induction false} VerifiedAppend(a: seq<bytes>, tx: bytes, decode: Decoder, total: uint64, end: uint64, maxGas: int)
    requires GasAfter(a, decode, total) == end && Verified(a, decode, total, maxGas)
    requires decode(tx).Some? && (maxGas > 0 ==> Add64(end, decode(tx).value.gas) <= maxGas)
    ensures Verified(a + [tx], decode, total, maxGas)
    ensures GasAfter(a + [tx], decode, total) == Add64(end, decode(tx).value.gas)
    decreases |a|
  {
    if a == [] {
      assert a + [tx] == [tx] && [tx][1..] == [];
    } else {
      assert (a + [tx])[0] == a[0] && (a + [tx])[1..] == a[1..] + [tx];
      var next := Add64(total, decode(a[0]).value.gas);
      if maxGas > 0 {
        VerifiedAppend(a[1..], tx, decode, next, end, maxGas);
      } else {
        GasAfterAppend(a, tx, decode, total);
        VerifiedUnlimited(a, decode, total, maxGas);
        VerifiedUnlimited(a + [tx], decode, total, maxGas);
      }
    }
  }

  /** The running counter is the true sum, wrapped once. */
  lemma {:induction false} GasAfterIsSum(txs: seq<bytes>, decode: Decoder, total: uint64)
    ensures GasAfter(txs, decode, total) == (total + GasSum(txs, decode)) % TWO64
    decreases |txs|
  {
    if txs != [] {
      hide Add64;
      GasAfterIsSum(txs[1..], decode, Add64(total, GasOf(txs[0], decode)));
      WrapOnce(total, GasOf(txs[0], decode), GasSum(txs[1..], decode));
    }
  }

  lemma WrapOnce(a: uint64, b: uint64, rest: nat)
    ensures (Add64(a, b) + rest) % TWO64 == (a + (b + rest)) % TWO64
  {
    var n := a + b + rest;
    assert Add64(a, b) + rest == n || Add64(a, b) + rest == n - TWO64;
  }

  /** The running uint64 gas counter after a list. */
  function GasAfter(txs: seq<bytes>, decode: Decoder, total: uint64): uint64
    decreases |txs|
  {
    if txs == [] then total else GasAfter(txs[1..], decode, Add64(total, GasOf(txs[0], decode)))
  }

  lemma {:induction false} GasAfterAppend(a: seq<bytes>, tx: bytes, decode: Decoder, total: uint64)
    ensures GasAfter(a + [tx], decode, total) == Add64(GasAfter(a, decode, total), GasOf(tx, decode))
    decreases |a|
  {
    if a == [] {
      assert a + [tx] == [tx] && [tx][1..] == [];
    } else {
      assert (a + [tx])[0] == a[0] && (a + [tx])[1..] == a[1..] + [tx];
      GasAfterAppend(a[1..], tx, decode, Add64(total, GasOf(a[0], decode)));
    }
  }

  lemma {:induction false} VerifiedUnlimited(txs: seq<bytes>, decode: Decoder, total: uint64, maxGas: int)
    requires maxGas <= 0
    ensures Verified(txs, decode, total, maxGas) <==> Decodable(txs, decode)
    decreases |txs|
  {
    if txs != [] {
      VerifiedUnlimited(txs[1..], decode, total, maxGas);
      assert Decodable(txs, decode) <==> decode(txs[0]).Some? && Decodable(txs[1..], decode) by {
        assert forall i :: 1 <= i < |txs| ==> txs[i] == txs[1..][i - 1];
      }
    }
  }

  /** The invariant of a selection: true size, both limits, and acceptance by the verifier. */
  ghost predicate Sound(t: Taken, decode: Decoder, maxBytes: nat, maxGas: int)
    requires -0x8000_0000_0000_0000 <= maxGas < 0x8000_0000_0000_0000
  {
    && t.size == TxsSize(t.txs)
    && t.size <= maxBytes
    && (maxGas != 0 ==> t.gas == GasSum(t.txs, decode) % TWO64 && t.gas <= GasWord(maxGas))
    && Verified(t.txs, decode, 0, maxGas)
  }

  /** Unless the sum wraps, the gas counter is the true gas and the true gas is within the selector's limit. */
  lemma SoundGas(t: Taken, decode: Decoder, maxBytes: nat, maxGas: int)
    requires -0x8000_0000_0000_0000 <= maxGas < 0x8000_0000_0000_0000 && maxGas != 0
    requires Sound(t, decode, maxBytes, maxGas)
    ensures t.gas == GasSum(t.txs, decode) <==> GasSum(t.txs, decode) < TWO64
    ensures GasSum(t.txs, decode) < TWO64 ==> GasSum(t.txs, decode) <= GasWord(maxGas)
  {
  }

  lemma {:induction false} TakeKeepsSound(t: Taken, decode: Decoder, maxBytes: nat, maxGas: int, tx: bytes)
    requires -0x8000_0000_0000_0000 <= maxGas < 0x8000_0000_0000_0000
    requires Sound(t, decode, maxBytes, maxGas) && decode(tx).Some?
    ensures Sound(Take(t, maxBytes, GasWord(maxGas), decode(tx).value.gas, tx), decode, maxBytes, maxGas)
  {
    var t' := Take(t, maxBytes, GasWord(maxGas), decode(tx).value.gas, tx);
    if t' != t {
      TxsSizeAppend(t.txs, [tx]);
      assert TxsSize([tx]) == TxSize(tx) + TxsSize([tx][1..]);
      GasAfterIsSum(t.txs, decode, 0);
      GasAfterIsSum(t.txs + [tx], decode, 0);
      VerifiedAppend(t.txs, tx, decode, 0, GasAfter(t.txs, decode, 0), maxGas);
    }
  }

  /** Selector refinement, part one: limits, counters and acceptance hold for every list fed. */
  lemma {:induction false} FeedIsSound(t: Taken, txs: seq<bytes>, decode: Decoder, maxBytes: nat, maxGas: int)
    requires -0x8000_0000_0000_0000 <= maxGas < 0x8000_0000_0000_0000
    requires Sound(t, decode, maxBytes, maxGas)
    requires Feed(t, txs, decode, maxBytes, GasWord(maxGas)).Some?
    ensures Sound(Feed(t, txs, decode, maxBytes, GasWord(maxGas)).value, decode, maxBytes, maxGas)
    decreases |txs|
  {
    if txs != [] {
      TakeKeepsSound(t, decode, maxBytes, maxGas, txs[0]);
      var t' := Take(t, maxBytes, GasWord(maxGas), decode(txs[0]).value.gas, txs[0]);
      if !Full(t', maxBytes, GasWord(maxGas)) {
        FeedIsSound(t', txs[1..], decode, maxBytes, maxGas);
      }
    }
  }

  /** Selector refinement, part two: what is added is a subsequence of what is fed, in order. */
  lemma {:induction false} FeedIsSubsequence(t: Taken, txs: seq<bytes>, decode: Decoder, maxBytes: nat, maxGas: uint64)
    requires Feed(t, txs, decode, maxBytes, maxGas).Some?
    ensures var r := Feed(t, txs, decode, maxBytes, maxGas).value.txs;
            t.txs <= r && Subsequence(r[|t.txs|..], txs)
    decreases |txs|
  {
    var r := Feed(t, txs, decode, maxBytes, maxGas).value.txs;
    if txs == [] {
      assert r[|t.txs|..] == [];
    } else {
      var t' := Take(t, maxBytes, maxGas, decode(txs[0]).value.gas, txs[0]);
      if Full(t', maxBytes, maxGas) {
        assert t'.txs[|t.txs|..] == if t' == t then [] else [txs[0]];
      } else {
        FeedIsSubsequence(t', txs[1..], decode, maxBytes, maxGas);
        if t'.txs != t.txs {
          assert r[|t.txs|] == t'.txs[|t.txs|] == txs[0];
          assert r[|t.txs|..][1..] == r[|t'.txs|..];
        }
      }
    }
  }

  ghost predicate ZeroGas(txs: seq<bytes>, decode: Decoder) {
    forall i :: 0 <= i < |txs| ==> decode(txs[i]).Some? && decode(txs[i]).value.gas == 0
  }

  /** Gas-free transactions that fit are all taken, before anything that follows them. */
  lemma {:induction false} FreePrefixIsTaken(t: Taken, free: seq<bytes>, rest: seq<bytes>, decode: Decoder, maxBytes: nat, maxGas: uint64)
    requires ZeroGas(free, decode) && t.gas == 0
    requires t.size + TxsSize(free) <= maxBytes
    requires Feed(t, free + rest, decode, maxBytes, maxGas).Some?
    ensures t.txs + free <= Feed(t, free + rest, decode, maxBytes, maxGas).value.txs
    decreases |free|
  {
    var all := free + rest;
    if free == [] {
      assert all == rest;
      FeedIsSubsequence(t, all, decode, maxBytes, maxGas);
      assert t.txs + free == t.txs;
    } else {
      assert all[0] == free[0] && all[1..] == free[1..] + rest;
      var t' := Take(t, maxBytes, maxGas, 0, free[0]);
      assert t' == Taken(t.size + TxSize(free[0]), 0, t.txs + [free[0]]);
      if Full(t', maxBytes, maxGas) {
        assert TxsSize(free[1..]) == 0;
        assert free[1..] == [];
        assert free == [free[0]];
      } else {
        assert ZeroGas(free[1..], decode);
        FreePrefixIsTaken(t', free[1..], rest, decode, maxBytes, maxGas);
        assert t.txs + free == t'.txs + free[1..];
      }
    }
  }

  lemma {:induction false} RoomIsTaken(t: Taken, maxBytes: nat, maxGas: uint64, gas: uint64, tx: bytes)
    requires t.size + TxSize(tx) <= maxBytes && (maxGas == 0 || t.gas + gas < maxGas)
    ensures var t' := Take(t, maxBytes, maxGas, gas, tx);
            && t'.txs == t.txs + [tx] && t'.size == t.size + TxSize(tx) && (maxGas > 0 ==> t'.gas == t.gas + gas)
            && (Full(t', maxBytes, maxGas) ==> t'.size >= maxBytes)
  {
    hide TxSize;
  }

  lemma {:induction false} NoSizeNoTxs(txs: seq<bytes>)
    requires TxsSize(txs) == 0
    ensures txs == []
  {
  }

  /** If everything decodes, fits, and stays strictly below the gas limit, nothing is dropped. */
  lemma {:induction false} NothingDropped(t: Taken, txs: seq<bytes>, decode: Decoder, maxBytes: nat, maxGas: uint64)
    requires Decodable(txs, decode)
    requires t.size + TxsSize(txs) <= maxBytes
    requires maxGas == 0 || t.gas + GasSum(txs, decode) < maxGas
    ensures Feed(t, txs, decode, maxBytes, maxGas).Some?
    ensures Feed(t, txs, decode, maxBytes, maxGas).value.txs == t.txs + txs
    decreases |txs|
  {
    hide Take, TxSize, Full;
    if txs == [] {
      assert t.txs + txs == t.txs;
    } else {
      RoomIsTaken(t, maxBytes, maxGas, decode(txs[0]).value.gas, txs[0]);
      var t' := Take(t, maxBytes, maxGas, decode(txs[0]).value.gas, txs[0]);
      if Full(t', maxBytes, maxGas) {
        NoSizeNoTxs(txs[1..]);
        assert txs == [txs[0]];
      } else {
        assert Decodable(txs[1..], decode);
        NothingDropped(t', txs[1..], decode, maxBytes, maxGas);
        assert t.txs + txs == t'.txs + txs[1..];
      }
    }
  }

  // ----- Position by position

  lemma {:induction false} FeedNext(t: Taken, txs: seq<bytes>, x: bytes, decode: Decoder, maxBytes: nat, maxGas: uint64)
    requires Feed(t, txs, decode, maxBytes, maxGas).Some?
    ensures var r := Feed(t, txs, decode, maxBytes, maxGas).value;
            Feed(t, txs + [x], decode, maxBytes, maxGas) ==
              (if txs != [] && Full(r, maxBytes, maxGas) then Some(r)
               else if decode(x).None? then None
               else Some(Take(r, maxBytes, maxGas, decode(x).value.gas, x)))
    decreases |txs|
  {
    hide Take, Full;
    var all := txs + [x];
    if txs == [] {
      assert all == [x] && all[1..] == [];
    } else {
      assert all[0] == txs[0] && all[1..] == txs[1..] + [x];
      var t' := Take(t, maxBytes, maxGas, decode(txs[0]).value.gas, txs[0]);
      if !Full(t', maxBytes, maxGas) {
        FeedNext(t', txs[1..], x, decode, maxBytes, maxGas);
      }
    }
  }

  /**
   * When the next transaction is taken, in bytes and gas: selection is over once the bytes reach the limit,
   * or the gas does and there is a limit; until then a transaction is taken iff the block data with it stays
   * within the bytes and the gas counter with it within the gas, and one that does not fit ends nothing.
   */
  lemma {:induction false} SelectedIff(txs: seq<bytes>, x: bytes, decode: Decoder, maxBytes: nat, maxGas: int)
    requires -0x8000_0000_0000_0000 <= maxGas < 0x8000_0000_0000_0000
    requires Feed(NOTHING, txs, decode, maxBytes, GasWord(maxGas)).Some?
    ensures var r := Feed(NOTHING, txs, decode, maxBytes, GasWord(maxGas)).value.txs;
            var next := Feed(NOTHING, txs + [x], decode, maxBytes, GasWord(maxGas));
            var limit := if maxGas < 0 then maxGas + TWO64 else maxGas;
            var over := txs != [] && (|BlockData(r)| >= maxBytes || (maxGas != 0 && GasSum(r, decode) % TWO64 >= limit));
            && (next.None? <==> !over && decode(x).None?)
            && (next.Some? && over ==> next.value.txs == r)
            && (next.Some? && !over ==>
                  next.value.txs == (if |BlockData(r)| + |BlockData([x])| <= maxBytes
                                        && (maxGas == 0 || (GasSum(r, decode) + decode(x).value.gas) % TWO64 <= limit)
                                     then r + [x] else r))
  {
    hide Feed, BlockData, GasSum, TxsSize, TxSize, Verified;
    var t := Feed(NOTHING, txs, decode, maxBytes, GasWord(maxGas)).value;
    EmptyIsSound(decode, maxBytes, maxGas);
    FeedIsSound(NOTHING, txs, decode, maxBytes, maxGas);
    FeedNext(NOTHING, txs, x, decode, maxBytes, GasWord(maxGas));
    TxsSizeIsBlockData(t.txs);
    TxSizeIsBlockData(x);
    if decode(x).Some? {
      WrapSum(GasSum(t.txs, decode), decode(x).value.gas);
    }
  }

  lemma EmptyIsSound(decode: Decoder, maxBytes: nat, maxGas: int)
    requires -0x8000_0000_0000_0000 <= maxGas < 0x8000_0000_0000_0000
    ensures Sound(NOTHING, decode, maxBytes, maxGas)
  {
  }

  lemma WrapSum(a: nat, b: nat)
    ensures (a % TWO64 + b) % TWO64 == (a + b) % TWO64
  {
    assert a == TWO64 * (a / TWO64) + a % TWO64;
  }

  lemma {:induction false} VerifiedNext(a: seq<bytes>, x: bytes, decode: Decoder, total: uint64, maxGas: int)
    ensures Verified(a + [x], decode, total, maxGas) <==>
            && Verified(a, decode, total, maxGas)
            && decode(x).Some?
            && (maxGas > 0 ==> Add64(GasAfter(a, decode, total), decode(x).value.gas) <= maxGas)
    decreases |a|
  {
    var all := a + [x];
    if a == [] {
      assert all == [x] && all[1..] == [];
    } else {
      hide Add64;
      assert all[0] == a[0] && all[1..] == a[1..] + [x];
      if decode(a[0]).Some? {
        VerifiedNext(a[1..], x, decode, if maxGas <= 0 then total else Add64(total, decode(a[0]).value.gas), maxGas);
      }
    }
  }

  /** Transaction `k` decodes and the true gas up to it, wrapped to a uint64, is within the limit if there is one. */
  ghost predicate GasFits(txs: seq<bytes>, decode: Decoder, maxGas: int, k: nat)
    requires k < |txs|
  {
    decode(txs[k]).Some? && (maxGas > 0 ==> GasSum(txs[..k + 1], decode) % TWO64 <= maxGas)
  }

  /** The verifier's check, exactly: it accepts iff every transaction decodes and the gas of every prefix fits. */
  lemma {:induction false} VerifiedIff(txs: seq<bytes>, decode: Decoder, maxGas: int)
    ensures Verified(txs, decode, 0, maxGas) <==> forall k :: 0 <= k < |txs| ==> GasFits(txs, decode, maxGas, k)
    decreases |txs|
  {
    if txs != [] {
      var m := |txs| - 1;
      LastFits(txs, decode, maxGas);
      hide Verified, GasSum;
      var a := txs[..m];
      VerifiedIff(a, decode, maxGas);
      forall k | 0 <= k < m
        ensures GasFits(a, decode, maxGas, k) <==> GasFits(txs, decode, maxGas, k)
      {
        assert a[k] == txs[k] && a[..k + 1] == txs[..k + 1];
      }
      hide GasFits;
    }
  }

  lemma {:induction false} LastFits(txs: seq<bytes>, decode: Decoder, maxGas: int)
    requires txs != []
    ensures var m := |txs| - 1;
            Verified(txs, decode, 0, maxGas) <==> Verified(txs[..m], decode, 0, maxGas) && GasFits(txs, decode, maxGas, m)
  {
    hide Verified, GasSum, GasAfter, Add64;
    var m := |txs| - 1;
    var a, x := txs[..m], txs[m];
    assert txs == a + [x] && txs[..m + 1] == txs;
    VerifiedNext(a, x, decode, 0, maxGas);
    GasAfterIsSum(a + [x], decode, 0);
    GasAfterAppend(a, x, decode, 0);
  }
}
