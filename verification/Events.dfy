/** From sidecar events to injected transactions: validation, authentication and skipping. */
module Events {
  import opened Base
  import opened TxWire
  import opened MsgIndexes
  import opened Selection

  datatype Event = Event(eventType: string, contract: string, data: bytes, logIndex: nat, txIndex: nat, txHash: bytes)

  const DEPOSIT := "Deposit"
  const AUTHORIZE := "Authorize"

  datatype ParsedDeposit = ParsedDeposit(valid: bool, message: Any)
  datatype ParsedAuthorize = ParsedAuthorize(valid: bool, sender: string, messages: Option<seq<Any>>)

  /**
   * The libraries the handlers call: decoders, per-message checks and address mapping. `registered`
   * are the messages the interface registry can resolve, `handled` those the message router has a handler for.
   */
  datatype Env = Env(
    authority: bytes,
    decode: Decoder,
    parseIndex: bytes -> Option<MsgIndex>,
    parseDeposit: bytes -> Option<ParsedDeposit>,
    parseAuthorize: bytes -> Option<ParsedAuthorize>,
    encodeError: Event -> bytes,
    validBasic: Any -> bool,
    signers: Any -> Option<seq<string>>,
    mappedAddress: string -> Option<string>,
    registered: Any -> bool,
    handled: Any -> bool)

  /** Bridge parameters; `nativeShare` is the block space that SequencerTxsAllocation reserves. */
  datatype Params = Params(
    proxy: string, maxEventBytes: nat, supplyDeltaPeriod: nat, maxUpdateDelay: int, nativeShare: nat -> nat)

  const SUPPLY_URL: bytes := Ascii("/fuelsequencer.bridge.v1.MsgSupplyDelta")
  const SKIPPED_URL: bytes := Ascii("/fuelsequencer.bridge.v1.MsgSkippedEventTx")
  const MAX_REASON: nat := 1024

  function SupplyDeltaAny(authority: bytes): Any {
    Any(SUPPLY_URL, OptBytes(0x0a, authority))
  }

  function SupplyDeltaTx(authority: bytes, sequence: nat): bytes {
    RawTx([SupplyDeltaAny(authority)], sequence)
  }

  function TrimReason(reason: bytes): (r: bytes)
    ensures |r| <= 1024
    ensures |reason| <= 1024 ==> r == reason
    ensures |reason| > 1024 ==> |r| == 1024 && r[..1021] == reason[..1021] && r[1021..] == Ascii("...")
  {
    if |reason| > MAX_REASON then reason[..MAX_REASON - 3] + Ascii("...") else reason
  }

  function SkipAny(authority: bytes, reason: bytes, block: nat, e: Event): Any {
    Any(SKIPPED_URL,
        OptBytes(0x0a, authority) + (OptBytes(0x12, TrimReason(reason)) + (OptNat(0x18, block)
        + (OptNat(0x20, e.logIndex) + (OptNat(0x28, e.txIndex) + OptBytes(0x32, e.txHash))))))
  }

  function SkipTx(authority: bytes, reason: bytes, block: nat, e: Event, sequence: nat): bytes {
    RawTx([SkipAny(authority, reason, block, e)], sequence)
  }

  /** `Event.Validate`. */
  predicate Valid(env: Env, proxy: string, e: Event) {
    && e.contract == proxy
    && (if e.eventType == DEPOSIT then env.parseDeposit(e.data).Some? && env.parseDeposit(e.data).value.valid
        else e.eventType == AUTHORIZE && env.parseAuthorize(e.data).Some? && env.parseAuthorize(e.data).value.valid)
  }

  /** `Event.Messages`. */
  function Messages(env: Env, e: Event): Option<seq<Any>> {
    if e.eventType == DEPOSIT then
      var p := env.parseDeposit(e.data);
      if p.None? then None else Some([p.value.message])
    else if e.eventType == AUTHORIZE then
      var p := env.parseAuthorize(e.data);
      if p.None? then None else p.value.messages
    else None
  }

  /** `Event.RawTxBytesWithMaxBytes`. */
  function EventTx(env: Env, e: Event, maxBytes: nat, sequence: nat): Option<bytes> {
    var msgs := Messages(env, e);
    if msgs.None? || TxSize(RawTx(msgs.value, sequence)) > maxBytes then None
    else Some(RawTx(msgs.value, sequence))
  }

  /** Every signer of the message is the one address, which is not blocked. */
  predicate SignedBy(env: Env, m: Any, address: string, blocked: set<string>) {
    && env.signers(m).Some?
    && forall j :: 0 <= j < |env.signers(m).value| ==>
         env.signers(m).value[j] == address && env.signers(m).value[j] !in blocked
  }

  /** `authenticateTx`: every signer of every message is the sender's mapped address, and is not blocked. */
  predicate AuthenticTx(env: Env, sender: string, msgs: seq<Any>, blocked: set<string>) {
    && env.mappedAddress(sender).Some?
    && forall i :: 0 <= i < |msgs| ==> SignedBy(env, msgs[i], env.mappedAddress(sender).value, blocked)
  }

  /** The two loops, which give up at the first signer that is not the mapped address or is blocked. */
  method AuthenticateTx(env: Env, sender: string, msgs: seq<Any>, blocked: set<string>) returns (ok: bool)
    ensures ok == AuthenticTx(env, sender, msgs, blocked)
    ensures ok <==>
            && env.mappedAddress(sender).Some?
            && forall i :: 0 <= i < |msgs| ==>
                 && env.signers(msgs[i]).Some?
                 && forall j :: 0 <= j < |env.signers(msgs[i]).value| ==>
                      var signer := env.signers(msgs[i]).value[j];
                      signer == env.mappedAddress(sender).value && signer !in blocked
  {
    var mapped := env.mappedAddress(sender);
    if mapped.None? {
      return false;
    }
    for i := 0 to |msgs|
      invariant forall k :: 0 <= k < i ==> SignedBy(env, msgs[k], mapped.value, blocked)
    {
      var signers := env.signers(msgs[i]);
      if signers.None? {
        return false;
      }
      for j := 0 to |signers.value|
        invariant forall k :: 0 <= k < j ==> signers.value[k] == mapped.value && signers.value[k] !in blocked
      {
        if signers.value[j] != mapped.value || signers.value[j] in blocked {
          assert !SignedBy(env, msgs[i], mapped.value, blocked);
          return false;
        }
      }
    }
    return true;
  }

  /** `authenticateEvent`; None is the error that halts block production. */
  function Authenticate(env: Env, e: Event, raw: bytes, blocked: set<string>): Option<bool> {
    if e.eventType == AUTHORIZE then
      var p := env.parseAuthorize(e.data);
      var tx := env.decode(raw);
      if p.None? || tx.None? then None
      else Some((forall m | m in tx.value.msgs :: env.validBasic(m)) && AuthenticTx(env, p.value.sender, tx.value.msgs, blocked))
    else Some(true)
  }

  /** One turn of the translation loop: the event's own transaction, its skip transaction, or an error. */
  function TranslateOne(env: Env, params: Params, blocked: set<string>, e: Event, block: nat, sequence: nat): Option<bytes> {
    if !Valid(env, params.proxy, e) then None
    else
      var raw := EventTx(env, e, params.maxEventBytes, sequence);
      if raw.None? then
        if e.eventType == AUTHORIZE then Some(SkipTx(env.authority, env.encodeError(e), block, e, sequence)) else None
      else
        var ok := Authenticate(env, e, raw.value, blocked);
        if ok.None? then None
        else if ok.value then raw
        else Some(SkipTx(env.authority, Ascii("unauthorized event"), block, e, sequence))
  }

  /** Applies `f` to each element with its running number; one failure fails all. */
  function Numbered(f: (Event, nat) -> Option<bytes>, events: seq<Event>, n: nat): Option<seq<bytes>>
    decreases |events|
  {
    if events == [] then Some([])
    else
      var first := f(events[0], n);
      var rest := Numbered(f, events[1..], n + 1);
      if first.None? || rest.None? then None else Some([first.value] + rest.value)
  }

  lemma {:induction false} NumberedPointwise(f: (Event, nat) -> Option<bytes>, events: seq<Event>, n: nat)
    requires Numbered(f, events, n).Some?
    ensures |Numbered(f, events, n).value| == |events|
    ensures forall i :: 0 <= i < |events| ==> f(events[i], n + i) == Some(Numbered(f, events, n).value[i])
    decreases |events|
  {
    if events != [] {
      var rest := events[1..];
      NumberedPointwise(f, rest, n + 1);
      forall i | 0 <= i < |events|
        ensures f(events[i], n + i) == Some(Numbered(f, events, n).value[i])
      {
        if i > 0 {
          assert events[i] == rest[i - 1] && n + i == (n + 1) + (i - 1);
          assert f(rest[i - 1], (n + 1) + (i - 1)) == Some(Numbered(f, rest, n + 1).value[i - 1]);
        }
      }
    }
  }

  lemma {:induction false} NumberedFails(f: (Event, nat) -> Option<bytes>, events: seq<Event>, n: nat) returns (i: nat)
    requires Numbered(f, events, n).None?
    ensures i < |events| && f(events[i], n + i).None?
    decreases |events|
  {
    if f(events[0], n).None? {
      i := 0;
    } else {
      var k := NumberedFails(f, events[1..], n + 1);
      i := k + 1;
      assert events[1..][k] == events[i] && n + 1 + k == n + i;
    }
  }

  lemma {:induction false} NumberedFailsIff(f: (Event, nat) -> Option<bytes>, events: seq<Event>, n: nat)
    ensures Numbered(f, events, n).None? <==> exists i :: 0 <= i < |events| && f(events[i], n + i).None?
  {
    if Numbered(f, events, n).None? {
      var i := NumberedFails(f, events, n);
    } else {
      NumberedPointwise(f, events, n);
    }
  }

  function Translator(env: Env, params: Params, blocked: set<string>, block: nat): (Event, nat) -> Option<bytes> {
    (e: Event, s: nat) => TranslateOne(env, params, blocked, e, block, s)
  }

  function Translate(env: Env, params: Params, blocked: set<string>, events: seq<Event>, block: nat, sequence: nat): Option<seq<bytes>> {
    Numbered(Translator(env, params, blocked, block), events, sequence)
  }

  /** What the sidecar said; a failing sidecar normally gives no events. */
  datatype Answer = Answer(events: seq<Event>, failed: bool)

  /** `generateMsgIndexAndEventTxs`. */
  function Generated(env: Env, params: Params, blocked: set<string>, answer: Answer, block: nat, sequence: nat): Option<Plan> {
    var txs := Translate(env, params, blocked, answer.events, block, sequence);
    if txs.None? then None
    else Some(Plan(MsgIndex(env.authority, |txs.value|, !answer.failed, block), txs.value))
  }

  /** The accumulating loop over the events, one transaction and one sequence each. */
  method TranslateLoop(f: (Event, nat) -> Option<bytes>, events: seq<Event>, first: nat) returns (r: Option<seq<bytes>>)
    ensures r == Numbered(f, events, first)
  {
    var txs: seq<bytes> := [];
    var sequence := first;
    ghost var all := Numbered(f, events, first);
    assert events[0..] == events && (all.Some? ==> txs + all.value == all.value);
    for i := 0 to |events|
      invariant |txs| == i && sequence == first + i
      invariant all == Joined(txs, Numbered(f, events[i..], sequence))
    {
      assert events[i..][1..] == events[i + 1..];
      var tx := f(events[i], sequence);
      if tx.None? {
        return None;
      }
      JoinedStep(txs, f, events[i..], sequence);
      txs := txs + [tx.value];
      sequence := sequence + 1;
    }
    assert txs + [] == txs;
    return Some(txs);
  }

  /** The generator; its closing length check can never fire. */
  method GenerateMsgIndexAndEventTxs(env: Env, params: Params, blocked: set<string>, answer: Answer, block: nat, first: nat)
    returns (r: Option<Plan>)
    ensures r == Generated(env, params, blocked, answer, block, first)
  {
    var f := Translator(env, params, blocked, block);
    var txs := TranslateLoop(f, answer.events, first);
    if txs.None? {
      return None;
    }
    NumberedPointwise(f, answer.events, first);
    if |txs.value| != |answer.events| {
      assert false;
      return None;
    }
    return Some(Plan(MsgIndex(env.authority, |txs.value|, !answer.failed, block), txs.value));
  }

  ghost function Joined(done: seq<bytes>, rest: Option<seq<bytes>>): Option<seq<bytes>> {
    if rest.None? then None else Some(done + rest.value)
  }

  lemma {:induction false} JoinedStep(done: seq<bytes>, f: (Event, nat) -> Option<bytes>, events: seq<Event>, n: nat)
    requires events != [] && f(events[0], n).Some?
    ensures Joined(done, Numbered(f, events, n)) == Joined(done + [f(events[0], n).value], Numbered(f, events[1..], n + 1))
  {
    var rest := Numbered(f, events[1..], n + 1);
    if rest.Some? {
      var x := f(events[0], n).value;
      assert done + ([x] + rest.value) == done + [x] + rest.value;
    }
  }

  /** The translation is pointwise: transaction `i` is event `i` at sequence `sequence + i`. */
  lemma {:induction false} TranslatePointwise(env: Env, params: Params, blocked: set<string>, events: seq<Event>, block: nat, sequence: nat, txs: seq<bytes>)
    requires Translate(env, params, blocked, events, block, sequence) == Some(txs)
    ensures |txs| == |events|
    ensures forall i :: 0 <= i < |events| ==> TranslateOne(env, params, blocked, events[i], block, sequence + i) == Some(txs[i])
  {
    var f := Translator(env, params, blocked, block);
    NumberedPointwise(f, events, sequence);
    forall i | 0 <= i < |events|
      ensures TranslateOne(env, params, blocked, events[i], block, sequence + i) == Some(txs[i])
    {
      assert f(events[i], sequence + i) == Some(txs[i]);
    }
  }

  // ----- What the libraries are trusted for

  /** The consensus messages, whose ValidateBasic is a no-op and which are registered and handled. */
  ghost predicate ConsensusAny(env: Env, a: Any) {
    || (exists m: MsgIndex :: a == Any(INDEX_URL, IndexBytes(m)))
    || a == SupplyDeltaAny(env.authority)
    || (exists reason: bytes, block: nat, e: Event :: a == SkipAny(env.authority, reason, block, e))
    || (exists d: bytes :: env.parseDeposit(d).Some? && a == env.parseDeposit(d).value.message)
  }

  /** Registered messages decode, whatever decodes is what was encoded, and the consensus messages pass all checks. */
  ghost predicate Faithful(env: Env) {
    && (forall msgs: seq<Any>, s: nat :: (forall m | m in msgs :: env.registered(m)) ==> env.decode(RawTx(msgs, s)).Some?)
    && (forall msgs: seq<Any>, s: nat :: env.decode(RawTx(msgs, s)).Some? ==>
          env.decode(RawTx(msgs, s)) == Some(SdkTx(msgs, 0)))
    && (forall m: MsgIndex :: env.parseIndex(IndexBytes(m)) == Some(m))
    && (forall a: Any :: ConsensusAny(env, a) ==> env.registered(a) && env.validBasic(a) && env.handled(a))
  }

  lemma DecodesConsensusTx(env: Env, a: Any, s: nat)
    requires Faithful(env) && ConsensusAny(env, a)
    ensures env.decode(RawTx([a], s)) == Some(SdkTx([a], 0))
  {
    assert env.registered(a);
    assert forall m | m in [a] :: env.registered(m);
  }

  /** A deposit's transaction decodes; that of an Authorize event, whose messages anyone may choose, need not. */
  lemma DecodesEventTx(env: Env, e: Event, s: nat)
    requires Faithful(env) && Messages(env, e).Some?
    ensures var tx := env.decode(RawTx(Messages(env, e).value, s));
            && (tx.Some? ==> tx.value == SdkTx(Messages(env, e).value, 0))
            && (e.eventType == DEPOSIT ==> tx.Some?)
  {
    if e.eventType == DEPOSIT {
      DecodesConsensusTx(env, env.parseDeposit(e.data).value.message, s);
    }
  }

  /** Authorised means: every message passes ValidateBasic and is signed by the mapped, unblocked sender only. */
  ghost predicate Authorised(env: Env, blocked: set<string>, e: Event)
    requires Messages(env, e).Some?
  {
    e.eventType == AUTHORIZE ==>
      && (forall m | m in Messages(env, e).value :: env.validBasic(m))
      && AuthenticTx(env, env.parseAuthorize(e.data).value.sender, Messages(env, e).value, blocked)
  }

  /** The event's messages encode within the per-event limit at this sequence. */
  ghost predicate Encodable(env: Env, params: Params, e: Event, s: nat) {
    Messages(env, e).Some? && TxSize(RawTx(Messages(env, e).value, s)) <= params.maxEventBytes
  }

  /**
   * The event stops block production: it is invalid, it is a deposit that does not encode, or it is an
   * Authorize event that encodes to a transaction which does not decode.
   */
  ghost predicate Halting(env: Env, params: Params, e: Event, s: nat) {
    || !Valid(env, params.proxy, e)
    || (e.eventType == DEPOSIT && !Encodable(env, params, e, s))
    || (e.eventType == AUTHORIZE && Encodable(env, params, e, s) && env.decode(RawTx(Messages(env, e).value, s)).None?)
  }

  /**
   * Exactly three outcomes. Block production halts iff the event is halting; otherwise it travels as its
   * own transaction iff it encodes and is authorised; in all other cases, which are Authorize events, a
   * skip transaction takes its place.
   */
  lemma TranslationOutcome(env: Env, params: Params, blocked: set<string>, e: Event, block: nat, s: nat)
    requires Faithful(env)
    ensures var r := TranslateOne(env, params, blocked, e, block, s);
            && (r.None? <==> Halting(env, params, e, s))
            && (r.Some? && Encodable(env, params, e, s) && Authorised(env, blocked, e) ==>
                  r.value == RawTx(Messages(env, e).value, s) && env.decode(r.value).Some?)
            && (r.Some? && !(Encodable(env, params, e, s) && Authorised(env, blocked, e)) ==>
                  e.eventType == AUTHORIZE
                  && exists reason: bytes :: r.value == SkipTx(env.authority, reason, block, e, s))
  {
    if Messages(env, e).Some? {
      DecodesEventTx(env, e, s);
    }
  }

  /**
   * Who may act: an Authorize event is authorised iff the sender's address maps, every message passes
   * ValidateBasic, and every signer of every message is the mapped address and is not blocked.
   */
  lemma {:induction false} AuthorisedIff(env: Env, blocked: set<string>, e: Event)
    requires e.eventType == AUTHORIZE && env.parseAuthorize(e.data).Some? && env.parseAuthorize(e.data).value.messages.Some?
    ensures Messages(env, e) == env.parseAuthorize(e.data).value.messages
    ensures var p := env.parseAuthorize(e.data).value;
            Authorised(env, blocked, e) <==>
            && env.mappedAddress(p.sender).Some?
            && forall m | m in p.messages.value ::
                 && env.validBasic(m)
                 && env.signers(m).Some?
                 && forall x | x in env.signers(m).value :: x == env.mappedAddress(p.sender).value && x !in blocked
  {
    var p := env.parseAuthorize(e.data).value;
    var msgs, mapped := p.messages.value, env.mappedAddress(p.sender);
    if mapped.Some? {
      forall m | m in msgs && env.signers(m).Some?
        ensures (forall x | x in env.signers(m).value :: x == mapped.value && x !in blocked) <==>
                SignedBy(env, m, mapped.value, blocked)
      {
        AllSigners(env.signers(m).value, mapped.value, blocked);
      }
    }
  }

  lemma {:induction false} AllSigners(signers: seq<string>, address: string, blocked: set<string>)
    ensures (forall x | x in signers :: x == address && x !in blocked) <==>
            (forall j :: 0 <= j < |signers| ==> signers[j] == address && signers[j] !in blocked)
  {
    if forall x | x in signers :: x == address && x !in blocked {
      forall j | 0 <= j < |signers|
        ensures signers[j] == address && signers[j] !in blocked
      {
        assert signers[j] in signers;
      }
    }
  }

  /** What becomes of a deposit, told by the libraries alone. */
  lemma {:induction false} DepositOutcome(env: Env, params: Params, blocked: set<string>, e: Event, block: nat, s: nat)
    requires Faithful(env) && e.eventType == DEPOSIT
    ensures var r, d := TranslateOne(env, params, blocked, e, block, s), env.parseDeposit(e.data);
            && (r.Some? <==> e.contract == params.proxy && d.Some? && d.value.valid
                             && |BlockData([RawTx([d.value.message], s)])| <= params.maxEventBytes)
            && (r.Some? ==> r.value == RawTx([d.value.message], s) && env.decode(r.value) == Some(SdkTx([d.value.message], 0)))
  {
    hide RawTx, TxSize, BlockData;
    if env.parseDeposit(e.data).Some? {
      TxSizeIsBlockData(RawTx([env.parseDeposit(e.data).value.message], s));
      DecodesEventTx(env, e, s);
    }
  }

  /** What becomes of an authorisation, told by the libraries alone. */
  lemma {:induction false} AuthorizeOutcome(env: Env, params: Params, blocked: set<string>, e: Event, block: nat, s: nat)
    requires Faithful(env) && e.eventType == AUTHORIZE
    ensures var r, p := TranslateOne(env, params, blocked, e, block, s), env.parseAuthorize(e.data);
            var fits := p.Some? && p.value.messages.Some? && |BlockData([RawTx(p.value.messages.value, s)])| <= params.maxEventBytes;
            && (r.Some? <==> e.contract == params.proxy && p.Some? && p.value.valid
                             && (fits ==> env.decode(RawTx(p.value.messages.value, s)).Some?))
            && (r.Some? && !fits ==> r.value == SkipTx(env.authority, env.encodeError(e), block, e, s))
            && (r.Some? && fits && !Authorised(env, blocked, e) ==> r.value == SkipTx(env.authority, Ascii("unauthorized event"), block, e, s))
            && (r.Some? && fits && Authorised(env, blocked, e) ==>
                  r.value == RawTx(p.value.messages.value, s) && env.decode(r.value) == Some(SdkTx(p.value.messages.value, 0)))
  {
    hide RawTx, TxSize, BlockData, SkipTx, Ascii;
    if Messages(env, e).Some? {
      TxSizeIsBlockData(RawTx(Messages(env, e).value, s));
      DecodesEventTx(env, e, s);
    }
  }

  /** Events of any other type stop block production. */
  lemma OtherEventsHalt(env: Env, params: Params, blocked: set<string>, e: Event, block: nat, s: nat)
    requires e.eventType != DEPOSIT && e.eventType != AUTHORIZE
    ensures TranslateOne(env, params, blocked, e, block, s).None?
  {
  }

  /** An Authorize event that is authorised although the chain cannot run it: it has no message, or one without a handler. */
  ghost predicate Hollow(env: Env, params: Params, blocked: set<string>, e: Event, s: nat) {
    && e.eventType == AUTHORIZE && Encodable(env, params, e, s) && Authorised(env, blocked, e)
    && (Messages(env, e).value == [] || exists m :: m in Messages(env, e).value && !env.handled(m))
  }

  /** Block production halts iff some event halts it, at the sequence its position gives it. */
  lemma {:induction false} HaltsIffSomeEventHalts(env: Env, params: Params, blocked: set<string>, events: seq<Event>, block: nat, s: nat)
    requires Faithful(env)
    ensures Translate(env, params, blocked, events, block, s).None? <==>
            exists i :: 0 <= i < |events| && Halting(env, params, events[i], s + i)
  {
    var f := Translator(env, params, blocked, block);
    forall i | 0 <= i < |events|
      ensures f(events[i], s + i).None? <==> Halting(env, params, events[i], s + i)
    {
      HaltsOne(env, params, blocked, events[i], block, s + i);
    }
    NumberedFailsIff(f, events, s);
  }

  lemma HaltsOne(env: Env, params: Params, blocked: set<string>, e: Event, block: nat, s: nat)
    requires Faithful(env)
    ensures TranslateOne(env, params, blocked, e, block, s).None? <==> Halting(env, params, e, s)
  {
    TranslationOutcome(env, params, blocked, e, block, s);
  }

  /** The transaction carries the event at this sequence: its own messages, or a skip notice for an Authorize. */
  ghost predicate Carries(env: Env, tx: bytes, e: Event, block: nat, s: nat) {
    || (Messages(env, e).Some? && tx == RawTx(Messages(env, e).value, s) && env.decode(tx).Some?
        && (e.eventType == AUTHORIZE ==> forall m | m in Messages(env, e).value :: env.validBasic(m)))
    || (e.eventType == AUTHORIZE && exists reason: bytes :: tx == SkipTx(env.authority, reason, block, e, s))
  }

  lemma TranslatedCarries(env: Env, params: Params, blocked: set<string>, e: Event, block: nat, s: nat)
    requires Faithful(env) && TranslateOne(env, params, blocked, e, block, s).Some?
    ensures Carries(env, TranslateOne(env, params, blocked, e, block, s).value, e, block, s)
  {
    TranslationOutcome(env, params, blocked, e, block, s);
  }

  /** Whatever carries an event is a gas-free, decodable transaction with exactly this sequence. */
  lemma CarriedDecodes(env: Env, tx: bytes, e: Event, block: nat, s: nat)
    requires Faithful(env) && Carries(env, tx, e, block, s)
    ensures exists msgs: seq<Any> :: tx == RawTx(msgs, s) && env.decode(tx) == Some(SdkTx(msgs, 0))
  {
    hide RawTx, SkipAny, Faithful, Messages;
    if Messages(env, e).Some? && tx == RawTx(Messages(env, e).value, s) && env.decode(tx).Some? {
      DecodesEventTx(env, e, s);
    } else {
      var reason: bytes :| tx == SkipTx(env.authority, reason, block, e, s);
      DecodesConsensusTx(env, SkipAny(env.authority, reason, block, e), s);
    }
  }

  lemma CarriedFree(env: Env, tx: bytes, e: Event, block: nat, s: nat)
    requires Faithful(env) && Carries(env, tx, e, block, s)
    ensures env.decode(tx).Some? && env.decode(tx).value.gas == 0
  {
    CarriedDecodes(env, tx, e, block, s);
  }

  // ----- Such libraries exist

  ghost function Undo(tx: bytes): (r: Option<SdkTx>)
    ensures (exists msgs: seq<Any>, s: nat :: RawTx(msgs, s) == tx) ==> r.Some?
    ensures r.Some? ==> r.value.gas == 0 && exists s: nat :: RawTx(r.value.msgs, s) == tx
  {
    if exists msgs: seq<Any>, s: nat :: RawTx(msgs, s) == tx then
      var msgs: seq<Any>, s: nat :| RawTx(msgs, s) == tx;
      Some(SdkTx(msgs, 0))
    else None
  }

  ghost function UndoIndex(b: bytes): (r: Option<MsgIndex>)
    ensures (exists m: MsgIndex :: IndexBytes(m) == b) ==> r.Some?
    ensures r.Some? ==> IndexBytes(r.value) == b
  {
    if exists m: MsgIndex :: IndexBytes(m) == b then
      var m: MsgIndex :| IndexBytes(m) == b;
      Some(m)
    else None
  }

  /** The decoder of a registry: it undoes the encoding of messages that are all registered, and refuses others. */
  ghost function Decoding(registered: Any -> bool, tx: bytes): Option<SdkTx> {
    var d := Undo(tx);
    if d.Some? && (forall m | m in d.value.msgs :: registered(m)) then d else None
  }

  lemma {:induction false} DecodingUndoes(registered: Any -> bool, msgs: seq<Any>, s: nat)
    ensures Decoding(registered, RawTx(msgs, s))
         == if forall m | m in msgs :: registered(m) then Some(SdkTx(msgs, 0)) else None
  {
    hide RawTx;
    var r := Undo(RawTx(msgs, s));
    assert exists msgs': seq<Any>, s': nat :: RawTx(msgs', s') == RawTx(msgs, s);
    var s': nat :| RawTx(r.value.msgs, s') == RawTx(msgs, s);
    RawTxInjective(msgs, s, r.value.msgs, s');
  }

  /**
   * The trust is consistent: the wire form is unambiguous, so a faithful decoder exists, whatever deposits
   * and authorisations look like, whichever other messages are registered and handled, and however
   * addresses are mapped.
   */
  lemma {:induction false} FaithfulLibrariesExist(
    authority: bytes, parseDeposit: bytes -> Option<ParsedDeposit>, parseAuthorize: bytes -> Option<ParsedAuthorize>,
    mappedAddress: string -> Option<string>, registered: Any -> bool, handled: Any -> bool) returns (env: Env)
    requires forall a: Any :: a.typeUrl != [] ==> registered(a) && handled(a)
    requires forall d: bytes :: parseDeposit(d).Some? ==> parseDeposit(d).value.message.typeUrl != []
    ensures env.authority == authority && env.parseDeposit == parseDeposit && env.parseAuthorize == parseAuthorize
    ensures env.mappedAddress == mappedAddress && env.registered == registered && env.handled == handled
    ensures Faithful(env)
    ensures forall msgs: seq<Any>, s: nat :: env.decode(RawTx(msgs, s)).Some? <==> forall m | m in msgs :: registered(m)
    ensures forall a: Any :: env.validBasic(a) && env.signers(a) == Some([])
  {
    hide RawTx, IndexBytes;
    env := Env(authority, tx => Decoding(registered, tx), b => UndoIndex(b), parseDeposit, parseAuthorize, e => [],
               a => true, a => Some([]), mappedAddress, registered, handled);
    forall msgs: seq<Any>, s: nat
      ensures env.decode(RawTx(msgs, s)) == if forall m | m in msgs :: registered(m) then Some(SdkTx(msgs, 0)) else None
    {
      DecodingUndoes(registered, msgs, s);
    }
    forall m: MsgIndex
      ensures env.parseIndex(IndexBytes(m)) == Some(m)
    {
      IndexBytesInjective(m, UndoIndex(IndexBytes(m)).value);
    }
    UrlsAreNonempty();
  }

  lemma UrlsAreNonempty()
    ensures INDEX_URL != [] && SUPPLY_URL != [] && SKIPPED_URL != []
  {
  }
}
