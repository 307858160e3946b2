# Verified model of the Fuel Sequencer bridge

This project models, in Dafny 4.11, how the Fuel Sequencer carries Ethereum events into its own
blocks, how the sidecar supplies those events, and how blocks are committed back to Ethereum. It proves
that the pieces fit together. `dafny verify dfyconfig.toml` covers every file.

## What is modelled

* **The consensus protocol.** A block starts with a `MsgIndex` transaction, followed by one transaction
  per Ethereum event, a `MsgSupplyDelta` at some heights, and then native transactions. `Proposal.dfy`
  models how a proposer builds such a block under byte and gas limits and how a verifier rebuilds and
  compares it. `Events.dfy` models the translation of events, `MsgIndex.dfy` the message and its
  trimming, `Selector.dfy` the greedy selection and the gas check, `TxWire.dfy` the transaction bytes,
  `WireForms.dfy` a protobuf reader that reads every wire form back field by field,
  `Keeper.dfy` the state the chain keeps, and `Ante.dfy` the decorator that lets injected transactions
  skip the rest of the ante chain. `ProposalTheorems.dfy`, `Relay.dfy`, `Sequences.dfy` and
  `Liveness.dfy` hold the theorems about blocks and about runs of blocks, and `Witnesses.dfy` concrete
  chains that meet their conditions or show where a promise fails.
* **The sidecar.** `Logs.dfy` models the grouping of logs, `Store.dfy` the event store, `Sidecar.dfy` the
  fetch loop and the query, and `SidecarTheorems.dfy` the store under every interleaving of fetches,
  calibrations and queries.
* **The whole bridge.** `System.dfy` joins both: any number of validators, each with its own sidecar, and
  one chain.
* **The bridge commitment.** `Encoding.dfy` models height words, `Merkle.dfy` the tree and its binding,
  `Inclusion.dfy` the query service, its inclusion proofs and what they establish.
* **The codec of `Index`.** `Varint.dfy` and `IndexCodec.dfy`.

Code that updates fields, buffers or locals step by step is a class or a method with a loop, proved equal
to a specification function; the theorems are about those functions.

## Main theorems

* `Bridge.BridgeRelaysExactlyOnce`: in every behaviour of chain and sidecars, with every query as three
  separate reads, the injected event transactions of all committed blocks carry exactly the Ethereum event
  log from where the chain started to where it stands, if and only if no block was accepted with an answer
  that an update overtook.
* `Bridge.ValidatorsAgree`: when a block that one validator prepared is accepted by another.
* `ProposalTheorems.Completeness`, `Soundness`, `PrefixAgreement`: what a proposer builds is accepted,
  what is accepted is the verifier's own list cut somewhere, and two acceptable blocks never diverge.
* `Liveness.PlansIff` and `RunProgress`: exactly when a proposer can plan a block, and that every block that
  syncs moves the relay forward.
* `Relay.RelayedIsSigned`: who acts in an accepted block.
* `Ante.Accounting`, `Ante.NativeOutcome` and `Relay.BlockEnds`: which transactions skip the ante chain, and
  when the end of the block succeeds.
* `SidecarTheorems.QueryIsExact` and `WrongAnswerIff`: when the sidecar's answer is the truth.
* `Merkle.CommitmentBinds` and `Inclusion.VerifiedResultIsReal`: a commitment can be opened in two ways,
  or a proof accepted for something that is not there, only by showing a hash collision.

## Where the code falls short of a stated promise

Each of these has a lemma with the exact condition, and an example where one helps.

* **Blocks that do not sync with Ethereum.** The comment at app/abci/proposal_handler.go:312-315 permits
  them until the update delay is exceeded. They are also refused while an Ethereum block is half
  consumed, because trimming the head of an empty list is an error (`NoSyncAccepted`).
* **Sequences.** The field documentation at api/fuelsequencer/bridge/genesis.pulsar.go:860-862 says each
  consensus transaction has a unique sequence and so a unique hash. Events trimmed from the head still
  consume a number, but the handler counts only those injected, so numbers come back after a half-consumed
  block (`AccountedIffNoOffset`, `SharesIff`, `ReusedAfterOffset`), and with them the same bytes
  (`SequenceReuse`). Without a half-consumed block they do not (`UniqueOverRun`).
* **Block production.** A proposer errs, rather than proposing a smaller block, if the next event alone does
  not fit beside MsgIndex, or if its sidecar fails while an Ethereum block is half consumed (`PlansIff`).
* **Gas.** Both gas sums are taken in uint64 and wrap; the limit is met exactly when the true sum fits
  (`AcceptedGas`, `WrappedGasIsAccepted`).
* **Authorize payloads.** The comment at app/abci/proposal_handler.go:567-568 wants an Authorize event with an
  invalid payload skipped, to protect the Sequencer. One whose transaction encodes but does not decode, as
  with a message of a type that is not registered, halts production instead: authenticateEvent returns the
  decoder's error (app/abci/authenticate_tx.go:37-40). While such an event is next, only blocks that do not
  sync are accepted, and none once the update delay is exceeded (`TranslationOutcome`, `HaltedChain`,
  `ForeignEventHalts`).
* **Injected-transaction accounting.** The decorator counts transactions rather than recognising them. An
  Authorize event without messages whose sender has a mapped address passes the vacuous checks at
  app/abci/authenticate_tx.go:45-60, and so does one with a message that no handler is registered for,
  contrary to the intent stated at lines 43-44; neither is ever seen. The accounting is exact iff no relayed
  event is such a hollow one; otherwise as many native transactions skip the ante chain in their place
  (`Accounting`, `NativeOutcome`, `HollowEventSkipsNative`).
* **Sidecar queries.** Three separately locked reads can straddle an update, and fast-forwarding marks
  blocks as synced that were never fetched (`WrongAnswerIff`, `RaceExample`, `FastForwardExample`). A race
  can cost the chain the events of a block (`BridgeRelaysExactlyOnce`, `RaceLosesEvent`).
* **Pruning.** The worked example in the comment at sidecar/store/eventstore.go:192-193 differs from the
  arithmetic at line 196; the model follows the arithmetic (`CalibrationIsGentle`).
* **Proof indices.** A commitment does not fix the number of its leaves, so the index in an inclusion
  proof is only as good as its total (`IndexNeedsTotal`); the height is not affected, since the leaf
  spells it out.

## Assumptions

* Library functions are parameters collected in `Env`, and `Faithful` says what is trusted of them:
  a transaction of registered messages, or of none, decodes, whatever decodes is what was encoded, and the consensus
  messages are registered, pass `ValidateBasic` and have handlers. Nothing is trusted of the messages in an
  Authorize event. `FaithfulLibrariesExist` shows that this can be met, and `CommittedBlocksExist` that a
  chain can then start.
* The SDK's default handler feeds the request's transactions in order to the selector until it is full,
  as described at app/abci/proposal_handler.go:224-227. Before the ante chain, the SDK refuses a transaction
  that does not decode, has no messages, or has a message that fails `ValidateBasic` or has no handler
  (`Seen`). It also refuses one when no block gas is left; that is taken not to happen, since injected
  transactions run first and with infinite meters.
* Finalized Ethereum does not change, and the node files each log under its own block (`Placed`).
  Extraction of an event from a log is an arbitrary function.
* The hash function is an arbitrary function to 32 bytes. CometBFT's tree hash and proofs are those of
  section 2.1 of RFC 6962, and a header holds the tree hash of the previous block's results (`Linked`).
* Failures of the sidecar, the node and special messages are arbitrary parameters.

## Model

| member | source | states |
|---|---|---|
| `Bridge.BridgeRelaysExactlyOnce` | app/abci/proposal_handler.go:127-150 | End to end, over every behaviour (any validators' sidecars fetching, pruning and fast-forwarding at any time, also between the three reads of a query, any proposers, any cuts): the event transactions of all committed blocks carry exactly the part of the Ethereum log between the chain's first and last relay position, in order, iff no block was accepted with an answer that an update overtook. |
| `Bridge.HeardIsHonestIff` | sidecar/sidecar/sidecar.go:340-366 | What a validator hears when it asks its sidecar for the block after the last one synced is a failure without events or the truth, iff no update overtook the query; if one did, the answer is that there are no events although there are. |
| `Bridge.ValidatorsAgree` | app/abci/proposal_handler.go:270-462 | In every behaviour, a block one validator prepared with what it heard is accepted by another, unless an update overtook a query, iff both sidecars answered, or the proposer's did not and the update delay is not exceeded. |
| `Bridge.Agreement` | app/abci/proposal_handler.go:321-456 | The same for any two honest answers. |
| `Bridge.PreparedIndex` | app/abci/proposal_handler.go:537-539 | A prepared block starts with a MsgIndex that syncs iff the proposer's sidecar answered. |
| `Bridge.AlwaysSound` | sidecar/store/eventstore.go:167-215 | In every state of every behaviour every sidecar is exact and never calibrated beyond the chain, and has only grown since any earlier state. |
| `Bridge.CommitSlice` | x/bridge/keeper/msg_server_index.go:62-75 | What a commit passes over is carried by its transactions if its validator was not misled; otherwise fewer transactions than events are relayed. |
| `Bridge.MisledSkips` | app/abci/proposal_handler.go:378-456 | A block accepted on a false word that there are no events carries none and passes over all events of its Ethereum block. |
| `Bridge.CommitIsHonestIff` | app/abci/proposal_handler.go:349-369 | The answer a block was accepted with is honest iff its validator was not misled. |
| `Bridge.CommitKeepsSound` | x/bridge/keeper/msg_server_index.go:62-66 | Committing a block, with whatever answer, keeps every sidecar sound. |
| `Bridge.MoveKeepsSound` | sidecar/store/eventstore.go:167-215 | No step of any sidecar, calibrated only with committed heights, loses soundness, and each sidecar only grows. |
| `Bridge.CommittedBlocksRun` | app/abci/proposal_handler.go:270-462 | However sidecar steps and commits interleave, as long as no validator was misled the committed blocks form a run of honest steps that ends in the current state. |
| `Relay.ExactlyOnce` | app/abci/proposal_handler.go:304-460 | Over every run of accepted blocks with any proposers, sync and no-sync blocks and tail cuts, all event transactions together carry one contiguous slice of the flattened event log between the first and last relay position: no loss, repetition or reordering. |
| `Relay.StepSpans` | x/bridge/keeper/msg_server_index.go:28-96 | The events one block carries are exactly those between the relay positions before and after it. |
| `Relay.SpansTransitive` | x/bridge/keeper/msg_server_index.go:62-75 | Slices between relay positions compose. |
| `Relay.CommittedStep` | app/abci/proposal_handler.go:378-434 | An accepted block carries the next events of the next Ethereum block, at least one if that block is half consumed; it is a full sync only when none is left and a partial one only when some are. |
| `Relay.AcceptedAfter` | x/bridge/keeper/msg_server_index.go:28-96 | The state an accepted block leaves, field by field; its MsgIndex is never refused. |
| `Relay.RelayedIsSigned` | app/abci/authenticate_tx.go:66-107 | Every event transaction of an accepted block decodes to the deposit's own message, to a notice that an authorisation is skipped, or to the messages of one, each valid and signed by nobody but the unblocked address its sender maps to. |
| `Relay.SupplyDeltaSchedule` | x/bridge/types/params.go:323-329 | MsgSupplyDelta is injected exactly at the heights its period divides, right after the events, by the authority, at the second sequence after the counter. |
| `Relay.BlockEnds` | x/bridge/module/module.go:170-200 | The checks at the end of an accepted block pass iff no special message failed and at least as many native transactions are seen as hollow events were relayed; the state left is then the one the relay theorems speak of. |
| `ProposalTheorems.Completeness` | app/abci/proposal_handler.go:127-245 | Every prepared block is accepted in the same state with the same sidecar answer, iff not both the sidecar failed without events and the update delay is exceeded. |
| `ProposalTheorems.Soundness` | app/abci/proposal_handler.go:378-456 | In an accepted syncing block, the MsgIndex equals the verifier's own and transactions 1..n are the first n pending ones; the full-sync flag is set iff the sidecar answered and nothing is held back. |
| `ProposalTheorems.PrefixAgreement` | app/abci/proposal_handler.go:386-434 | Of two syncing blocks accepted in the same state with the same answer, one event segment is a prefix of the other. |
| `ProposalTheorems.NoSyncAccepted` | app/abci/proposal_handler.go:312-348 | A block without Ethereum syncing is accepted iff no Ethereum block is half consumed and the update delay is not exceeded. |
| `ProposalTheorems.IdleAccepted` | app/abci/proposal_handler.go:323-348 | A block without syncing is accepted iff the state is found, no Ethereum block is half consumed, its gas check passes and, after a last update at time u, its time is at most u plus the maximum delay. |
| `ProposalTheorems.AcceptedStateFound` | app/abci/proposal_handler.go:304-309 | Nothing is accepted if the blocked addresses, the last synced block or the offset cannot be read. |
| `Liveness.IdleAfterSync` | app/abci/proposal_handler.go:323-337 | Right after a block that synced at time u, a block without syncing is accepted iff that block finished its Ethereum block, the time is at most u plus the maximum delay, and its other checks pass. |
| `Liveness.IdleWindow` | app/abci/proposal_handler.go:312-337 | Over a run, however many idle blocks follow a block that synced, none is later than its time plus the maximum delay. |
| `ProposalTheorems.NoSyncIgnoresSidecar` | app/abci/proposal_handler.go:321-348 | The verdict on such a block does not depend on the verifier's sidecar. |
| `ProposalTheorems.PreparedBlock` | app/abci/proposal_handler.go:217-245 | Once planning succeeds, the selector takes the whole injected part as the block's prefix, the rest is a subsequence, the block data is within MaxTxBytes, the verifier's gas check passes, and the minimum-count check cannot fail. |
| `ProposalTheorems.InjectedFits` | app/abci/proposal_handler.go:152-211 | The block data of MsgIndex, kept events and MsgSupplyDelta never exceeds MaxTxBytes, and leaves room for native transactions within their share. |
| `ProposalTheorems.PlannedIsLargest` | app/abci/proposal_handler.go:152-211 | The events kept are the longest prefix of the pending ones that fits beside MsgIndex in the bytes that MsgSupplyDelta and the native transactions, up to their share, leave. |
| `ProposalTheorems.NativeNotDropped` | app/abci/proposal_handler.go:158-181 | If native transactions decode, fit their share and stay strictly below the gas limit (or there is none), none is dropped: the block is the injected part followed by all of them. |
| `ProposalTheorems.FedBlock` | app/abci/utils.go:39-69 | Any gas-free prefix that fits stays the prefix of what the selector returns. |
| `ProposalTheorems.PlannedIsCut` | app/abci/proposal_handler.go:183-211 | What the proposer keeps is the pending list cut at the count its MsgIndex announces. |
| `ProposalTheorems.PendingShape` | app/abci/proposal_handler.go:139-150 | The pending list holds one transaction per event not yet processed and MsgIndex counts them and names the next block; generation succeeds only if the offset is zero or some event remains. |
| `ProposalTheorems.PendingCarries` | app/abci/proposal_handler.go:569-628 | Pending transaction i carries event offset+i, at sequence first+offset+i. |
| `ProposalTheorems.IndexReadsBack` | x/bridge/types/message_index.go:192-234 | Reading a MsgIndex transaction gives back the message it was made from, and it costs no gas. |
| `ProposalTheorems.InjectedFree` | app/abci/proposal_handler.go:224-227 | Everything injected decodes and has a zero gas limit. |
| `ProposalTheorems.AcceptedShape` | app/abci/proposal_handler.go:411-444 | An accepted block starts with exactly the injected part the verifier rebuilt. |
| `ProposalTheorems.AcceptsInjected` | app/abci/proposal_handler.go:420-456 | Conversely, a block that starts with the rebuilt injected part is accepted iff its gas check passes. |
| `ProposalTheorems.RebuiltIsPrefix` | app/abci/proposal_handler.go:378-409 | Whatever events the verifier expects are the first pending ones. |
| `Liveness.PlansIff` | app/abci/proposal_handler.go:88-211 | A proposer gets as far as selection iff the state is found, MsgSupplyDelta fits, no event halts production, some event is left of a half-consumed Ethereum block, and MsgIndex and the next event fit in the bytes native transactions leave. |
| `Liveness.PendingIff` | app/abci/proposal_handler.go:118-150 | Generation and head trimming succeed iff the state is found, no event halts them and the processed events are not all there are. |
| `Liveness.HaltedChain` | app/abci/proposal_handler.go:607-612 | While an event of the next Ethereum block halts, whoever hears of it can build no block and accepts none that syncs, and none at all once the update delay is exceeded. |
| `Liveness.PlannedIsProposed` | app/abci/proposal_handler.go:217-245 | Without native transactions, whatever an answering sidecar lets a proposer plan is the prepared block, and it is accepted. |
| `Liveness.AnsweredSyncs` | app/abci/proposal_handler.go:183-211 | A proposer whose sidecar answers never proposes a block without syncing. |
| `Liveness.StepProgress` | x/bridge/keeper/msg_server_index.go:62-75 | An accepted block that syncs relays an event or finishes an Ethereum block. |
| `Liveness.RunProgress` | x/bridge/keeper/msg_server_index.go:62-75 | Over a run of syncing blocks, events relayed and Ethereum blocks finished together are at least as many as the blocks. |
| `Witnesses.CommittedBlocksExist` | app/abci/proposal_handler.go:76-246 | The conditions of the theorems can be met: with suitable libraries a new chain, whatever its authority, has a block that is prepared, accepted and committed. |
| `Liveness.FullBlockAccepted` | app/abci/proposal_handler.go:378-456 | A block that relays everything pending is accepted, whatever follows, if its gas check passes. |
| `Proposals.PrepareProposal` | app/abci/proposal_handler.go:76-246 | The handler, with its selector, returns the specified block or error and leaves the selector cleared. |
| `Proposals.PlanInjected` | app/abci/proposal_handler.go:93-181 | Reserves space for MsgSupplyDelta and native transactions and plans the injected part in the rest; MsgIndex counts its events. |
| `Proposals.PlanWithin` | app/abci/proposal_handler.go:118-211 | The planned MsgIndex and events for a given byte budget. |
| `Proposals.GeneratePending` | app/abci/proposal_handler.go:139-150 | Generates MsgIndex and event transactions and trims the processed ones, with MsgIndex updated in place. |
| `Proposals.FitEvents` | app/abci/proposal_handler.go:183-211 | Cuts the events to the budget, with MsgIndex updated in place; its count stays that of the events. |
| `Proposals.NativeAllocation` | app/abci/proposal_handler.go:168-181 | Both branches of the budget are one formula: the space less the smaller of the native size and the native share, without underflow. |
| `Proposals.AllocationIsValid` | x/bridge/types/params.go:268-285 | A validated allocation reserves at most half of any block space. |
| `Proposals.ShareIsRoundedDown` | app/abci/proposal_handler.go:161-166 | The share is the allocation's part of the space, rounded down. |
| `Proposals.AllocationIsShare` | app/abci/proposal_handler.go:161-166 | The share any validated allocation reserves meets what the handlers assume of it, so the budget's subtractions do not wrap. |
| `Proposals.ProcessProposal` | app/abci/proposal_handler.go:270-462 | The handler accepts exactly the specified blocks. |
| `Proposals.Rebuild` | app/abci/proposal_handler.go:321-409 | The verifier's own MsgIndex and events, from the sidecar or for a proposer that did not sync, cut at the proposer's count. |
| `Ante.Accounting` | app/ante.go:76-123 | In an accepted block, the transactions that skip the rest of the ante chain are exactly MsgIndex, the events and the MsgSupplyDelta, and every later one seen goes on with its own gas meters, iff none of the relayed events is hollow; the counter never passes its total. |
| `Ante.NativeOutcome` | app/ante.go:103-122 | In general, of the native transactions seen, exactly the first as many as there are hollow events skip the ante chain; the others go on with their own gas meters. |
| `Ante.SeenAccounting` | app/ante.go:76-123 | The same accounting in terms of what the decorator sees. |
| `Ante.SeenIffNotHollow` | app/abci/authenticate_tx.go:18-63 | The decorator sees what an event was translated to iff the event is not hollow: an authorised Authorize event that encodes and has no message, or one without a handler. |
| `Ante.InvalidIsSkipped` | app/abci/authenticate_tx.go:43-54 | An Authorize event with a message that fails ValidateBasic would never be seen as its own transaction; what takes its place is another one, which is seen. |
| `Ante.HollowIsUnseen` | app/abci/authenticate_tx.go:43-60 | A hollow event that does not halt production travels as its own transaction, which is never seen. |
| `Ante.InjectedSeenCount` | app/ante.go:103-115 | Of the injected transactions after MsgIndex, as many are missed as events are hollow. |
| `Ante.FinalIndex` | app/ante.go:98-115 | The three counters an accepted block leaves, whatever is seen. |
| `Ante.RunRestCounter` | app/ante.go:103-115 | The counter after any stretch of transactions is the number seen, capped at the total. |
| `Ante.RunRestVerdict` | app/ante.go:103-122 | Each transaction's outcome follows from the number of transactions seen before it. |
| `Ante.CountedBlock` | app/ante.go:94-122 | The counting argument for any block whose MsgIndex announced a total. |
| `Ante.AcceptedIndexExecutes` | x/bridge/keeper/msg_server_index.go:28-96 | The MsgIndex of an accepted block is seen, comes from the authority and is never refused by its handler; the Index it sets counts the injected transactions. |
| `Keeper.HandlerGuards` | x/bridge/keeper/msg_server_index.go:28-96 | For any message: it is let through iff it names the next Ethereum block, brings an event if that is half consumed and is the first of its block; the relay position then moves on, within the block or not at all, and the counter by what is injected. |
| `Keeper.RefusedIndex` | x/bridge/keeper/msg_server.go:22-45 | A message of anyone but the authority changes nothing; one the handler refuses is only counted, and the end of the block then fails, however many transactions were seen. |
| `Ante.AcceptedProgress` | x/bridge/types/message_index.go:31-59 | While an Ethereum block is half consumed, every accepted block brings at least one more event. |
| `Ante.InjectedAreSeen` | app/abci/authenticate_tx.go:18-63 | Position by position, an injected transaction of an accepted block is seen iff it does not carry a hollow event. |
| `Ante.InjectedTxsDecorator.Handle` | app/ante.go:76-123 | A transaction is let through with infinite meters iff a block above height zero is finalized and no index is stored or fewer transactions were seen than injected, and it is counted if an index is stored; otherwise it goes on with its own meters and the index is untouched. |
| `Ante.CallsChangeNothing` | app/ante.go:80-83 | Outside FinalizeBlock, any list of transactions goes on with their own meters and leaves the index alone. |
| `Ante.OthersMakeNoDifference` | app/ante.go:80-83 | Any such calls between the transactions of a block make no difference to the block's outcomes and counters. |
| `SequenceUse.InjectedHasSequence` | app/abci/proposal_handler.go:464-478 | Transaction k of an accepted block is one with the sequence its position gives it. |
| `SequenceUse.SequenceFormula` | app/abci/proposal_handler.go:464-478 | MsgIndex takes the sequence after the counter, MsgSupplyDelta at its heights the next, and the k-th event of the Ethereum block the k-th after those, relayed before or not. |
| `SequenceUse.DistinctWithinBlock` | app/abci/proposal_handler.go:464-478 | Within a block all injected transactions have different sequences and different bytes, after any trimming. |
| `SequenceUse.AccountedIffNoOffset` | x/bridge/keeper/msg_server_index.go:88-90 | The counter covers all sequences a block uses iff the block does not continue a half-consumed Ethereum block. |
| `Witnesses.SequenceReuse` | x/bridge/keeper/msg_server_index.go:88-90 | A concrete run of two committed blocks that carry two different deposits in transactions with the same bytes. |
| `Witnesses.HollowEventSkipsNative` | app/ante.go:103-115 | A concrete accepted block whose hollow event is never seen and whose native transaction skips the ante chain with infinite gas meters. |
| `Witnesses.ForeignEventHalts` | app/abci/authenticate_tx.go:37-40 | A concrete chain on which one valid Authorize event within the size limit, with a message of an unregistered type, stops every proposer and every block that syncs. |
| `Witnesses.RaceLosesEvent` | sidecar/sidecar/sidecar.go:340-366 | A concrete behaviour in which a query is overtaken and the chain passes over an event without relaying it. |
| `SequenceUse.SharesIff` | api/fuelsequencer/bridge/genesis.pulsar.go:860-863 | Two blocks of any run use a sequence in common iff the numbers of the earlier one's events overlap those of the later one, in closed form from counters, offsets and counts. |
| `SequenceUse.DistinctUnlessOverlap` | api/fuelsequencer/bridge/genesis.pulsar.go:860-863 | Two blocks of any run without such an overlap have no injected transaction in common. |
| `SequenceUse.UniqueOverRun` | api/fuelsequencer/bridge/genesis.pulsar.go:860-863 | Over a run in which no block continues a half-consumed one, no two injected transactions have the same bytes. |
| `SequenceUse.ReusedAfterOffset` | api/fuelsequencer/bridge/genesis.pulsar.go:860-863 | After a block that does continue one, the counter of some later block passes the sequence of its last event, and that block uses the sequence again iff the number is not in the place of events already processed. |
| `SequenceUse.WindowUse` | x/bridge/keeper/msg_server_index.go:88-90 | Of the sequences between its counter and the next a block uses exactly those not in the place of events already processed. |
| `SequenceUse.CounterGrows` | x/bridge/keeper/msg_server_index.go:88-90 | The counter only moves forward along a run. |
| `Events.TranslationOutcome` | app/abci/proposal_handler.go:569-628 | Exactly three outcomes: block production halts iff the event is invalid, is a deposit that does not encode, or is an Authorize event that encodes and does not decode; the event travels as its own transaction iff it encodes and is authorised; otherwise it is an Authorize event and a skip transaction takes its place. |
| `Events.DepositOutcome` | app/abci/proposal_handler.go:569-628 | A deposit becomes its own message at the given sequence iff it comes from the proxy contract, parses, is valid and its transaction fits the per-event limit in block bytes; otherwise production halts. |
| `Events.AuthorizeOutcome` | app/abci/proposal_handler.go:569-628 | An authorisation that is from the proxy contract, parses and is valid halts production iff it fits and does not decode; otherwise it becomes its own messages iff it fits and is authorised, or a skip notice with the reason for that. |
| `Events.OtherEventsHalt` | sidecar/service/types/sidecar.go:76-95 | An event of any other type halts production. |
| `Events.AuthorisedIff` | app/abci/authenticate_tx.go:45-104 | An Authorize event is authorised iff the sender's address maps, every message passes ValidateBasic, and every signer of every message is the mapped address and is not blocked. |
| `Events.AuthenticateTx` | app/abci/authenticate_tx.go:66-107 | The two loops accept iff the sender's address maps and every signer of every message is that address and is not blocked. |
| `Events.HaltsIffSomeEventHalts` | app/abci/proposal_handler.go:569-628 | Translation of a list fails iff some event halts it at its own sequence. |
| `Events.TranslatePointwise` | app/abci/proposal_handler.go:569-644 | One transaction per event: output i is the translation of event i at sequence first+i. |
| `Events.GenerateMsgIndexAndEventTxs` | app/abci/proposal_handler.go:543-647 | The loop computes the specified MsgIndex and transactions; its closing length check never fires. |
| `Events.TranslateLoop` | app/abci/proposal_handler.go:569-628 | The accumulating loop numbers the events from the first sequence and stops at the first error. |
| `Events.TranslatedCarries` | app/abci/proposal_handler.go:607-627 | Every translation carries its event: its own messages, or a skip notice if it is an Authorize event. |
| `Events.CarriedDecodes` | utils/tx_bytes_from_any_msgs.go:23-57 | Whatever carries an event decodes to the messages it was made of, without gas, and has exactly the given sequence. |
| `Events.FaithfulLibrariesExist` | utils/tx_bytes_from_any_msgs.go:23-57 | The trust placed in the libraries is consistent, whatever events look like and whichever other messages are registered and handled, because the wire form is unambiguous. |
| `Events.TrimReason` | x/bridge/types/message_skip_event_tx.go:19-43 | A reason of at most 1024 bytes is kept; a longer one keeps its first 1021 bytes, followed by three dots. |
| `WireForms.SkippedFields` | x/bridge/types/tx.pb.go:583-600 | A skip notice reads back as authority, trimmed reason, Ethereum block, log index, transaction index and transaction hash in fields 1 to 6. |
| `WireForms.IndexFields` | x/bridge/types/tx.pb.go:469-484 | MsgIndex reads back as authority, number of events, new-block flag and Ethereum block in fields 1 to 4. |
| `WireForms.SupplyDeltaFields` | x/bridge/types/tx.pb.go:130-133 | MsgSupplyDelta reads back as the authority in field 1. |
| `WireForms.RecordFields` | api/fuelsequencer/bridge/index.pulsar.go:528-543 | Index reads back as its three counters in fields 1 to 3. |
| `WireForms.RawTxFields` | utils/tx_bytes_from_any_msgs.go:46-51 | A transaction reads back as its body in field 1 and its signer and fee in field 2, without signatures. |
| `WireForms.BodyFields` | utils/tx_bytes_from_any_msgs.go:25-28 | The body reads back as the wrapped messages in order. |
| `WireForms.AuthFields` | utils/tx_bytes_from_any_msgs.go:33-40 | The signer reads back with the sequence in field 3, and the fee with no gas limit. |
| `WireForms.BlockDataFields` | utils/size.go:5-10 | Block data reads back as the transactions in order. |
| `WireForms.UnvarintBack` | x/bridge/types/tx.pb.go:1547-1557 | A varint is the base 128 form of its number, of whatever size. |
| `MsgIndexes.IndexRef.TrimEventsFromHead` | x/bridge/types/message_index.go:95-129 | Drops the processed events and updates the message in place; an error leaves it unchanged; the closing check never fires. |
| `MsgIndexes.IndexRef.KeepEventsFromHead` | x/bridge/types/message_index.go:135-173 | Keeps exactly the first n events, clears the flag on a proper cut, reports how many went; an error leaves the message unchanged. |
| `MsgIndexes.IndexRef.NumberOfEventsWithMaxBytes` | x/bridge/types/message_index.go:64-89 | Counts the leading events that fit beside the message, and errs iff the message itself does not fit. |
| `MsgIndexes.FitCountIsLargest` | x/bridge/types/message_index.go:64-89 | A prefix fits the budget iff it is no longer than that count. |
| `MsgIndexes.CutFitsBudget` | x/bridge/types/message_index.go:61-89 | The count is chosen with the message before the cut, yet message and events after the cut fit the same bytes. |
| `MsgIndexes.CutShrinks` | x/bridge/types/tx.pb.go:1686-1706 | Fewer events and a cleared flag never make the message longer. |
| `MsgIndexes.IndexTxFollowsSize` | x/bridge/types/message_index.go:177-190 | A message that is no longer gives a transaction that is no larger. |
| `MsgIndexes.IndexSizeIsLength` | x/bridge/types/tx.pb.go:1686-1706 | The size formula counts the bytes marshalled. |
| `MsgIndexes.IndexBytesInjective` | x/bridge/types/tx.pb.go:1407-1440 | The bytes determine the message. |
| `TxWire.RawTxInjective` | utils/tx_bytes_from_any_msgs.go:23-57 | The transaction bytes determine the messages and the sequence. |
| `TxWire.SizeFollowsMessage` | utils/size.go:8-10 | Of two one-message transactions of the same type and sequence, the longer message gives the larger size. |
| `TxWire.ComputeTxsSize` | utils/size.go:14-20 | The loop computes the number of bytes the transactions take in a block. |
| `TxWire.TxsSizeIsBlockData` | utils/size.go:5-20 | The size of transactions is the number of bytes of CometBFT's block data that holds them. |
| `Selection.TxSelector.SelectTxForProposal` | app/abci/utils.go:39-69 | One call takes the transaction iff it fits both limits, updates size, gas and list, and stops when a limit is reached. |
| `Selection.TxSelector.Clear` | app/abci/utils.go:33-37 | Resets the selector. |
| `Selection.DefaultPrepare` | app/abci/proposal_handler.go:224-233 | Feeding in order until full, then clearing. |
| `Selection.FeedIsSound` | app/abci/utils.go:39-69 | For every list fed: the size counter is the true size, the gas counter is the true gas sum modulo 2^64 (when gas is limited), both counters are within their limits, and the result passes the verifier's gas check. |
| `Selection.SelectedIff` | app/abci/utils.go:39-69 | Position by position: selection is over once the block data reaches the byte limit or the gas counter the gas limit; until then a transaction is taken iff the block data and the gas counter with it are within the limits, and one that does not fit ends nothing. |
| `Selection.VerifiedIff` | app/abci/proposal_handler.go:500-534 | The verifier's check accepts iff every transaction decodes and, with a gas limit, the true gas of every prefix, modulo 2^64, is within it. |
| `Selection.SoundGas` | app/abci/utils.go:39-69 | The gas counter is the true gas sum iff that is below 2^64, and then the true sum is within the limit. |
| `Selection.GasAfterIsSum` | app/abci/proposal_handler.go:512-531 | A running uint64 gas total is the true sum wrapped. |
| `Selection.FeedIsSubsequence` | app/abci/utils.go:39-69 | What is selected is a subsequence of what is fed. |
| `Selection.FreePrefixIsTaken` | app/abci/utils.go:39-69 | Gas-free transactions that fit are all taken, before anything after them. |
| `Selection.NothingDropped` | app/abci/utils.go:39-69 | If everything decodes, fits and stays strictly below the gas limit, nothing is dropped. |
| `Selection.VerifyTransactionsInProposal` | app/abci/proposal_handler.go:500-534 | The loop computes the stepwise check. |
| `Selection.VerifiedIsTotalCheck` | app/abci/proposal_handler.go:500-534 | While the gas sum fits a uint64, the stepwise check is a check on the total. |
| `Selection.AcceptedGas` | app/abci/proposal_handler.go:500-534 | The true gas of an accepted block is within the limit iff it fits a uint64. |
| `Selection.WrappedGasIsAccepted` | app/abci/proposal_handler.go:500-534 | Two concrete gas values that wrap and are accepted over the limit. |
| `Logs.SucceedsIffSequential` | sidecar/ethwrappedclient/rpc_client.go:175-234 | Grouping succeeds iff the non-removed logs extract and are in order: blocks non-decreasing from the start block, within a block transactions non-decreasing and log indices increasing. |
| `Logs.GroupsByBlock` | sidecar/ethwrappedclient/rpc_client.go:175-234 | The map holds, for each block, exactly its recognised non-removed events in order, and no entry for the others. |
| `Logs.MapReadsBack` | sidecar/ethwrappedclient/rpc_client.go:175-234 | Whatever logs are accepted, reading the resulting map in block order gives back exactly the recognised non-removed logs, in order. |
| `Logs.GroupingKeepsOrder` | sidecar/ethwrappedclient/rpc_client.go:175-234 | Logs in order, taken block by block, give back exactly the recognised non-removed logs, in order. |
| `Logs.ProcessLogs` | sidecar/ethwrappedclient/rpc_client.go:175-234 | The loop with its cursor computes the fold. |
| `Logs.CursorRef.ValidateIsLogSequential` | sidecar/utils/utils.go:483-519 | Accepts exactly the logs that may follow and moves the three values through its pointers. |
| `Stores.EventStore.constructor` | sidecar/store/eventstore.go:39-52 | An empty store whose last synced block precedes its start. |
| `Stores.EventStore.AddEvents` | sidecar/store/eventstore.go:58-76 | Appends to blocks that exist and creates the others, in whatever order the map is visited. |
| `Sidecar.PartsAreAppended` | sidecar/store/eventstore.go:54-76 | A block whose logs arrive in two parts is stored whole, in order. |
| `Stores.EventStore.GetStoredEvents` | sidecar/store/eventstore.go:79-93 | The entry of a block, if any. |
| `Stores.EventStore.SetLastSyncedBlock` | sidecar/store/eventstore.go:126-130 | Moves the last synced block and nothing else. |
| `Stores.EventStore.GetNextQueryBlock` | sidecar/store/eventstore.go:151-153 | The block after the last synced one. |
| `Stores.EventStore.CalibrateBlocksAndPruneLogs` | sidecar/store/eventstore.go:173-215 | Fast-forwards, prunes with the delete loop and moves the start, or does nothing for a failed height. |
| `Stores.CalibrationIsGentle` | sidecar/store/eventstore.go:173-215 | Calibrating with height L removes exactly the blocks from the start to L-10, none if that is the start alone, and moves the start past them; the last block becomes the larger of itself and L; the rest is unchanged, and a failed height changes nothing. |
| `Sidecar.FetchAndProcessLogs` | sidecar/ethwrappedclient/rpc_client.go:135-172 | The window is capped; a success is the truth about exactly the blocks of the window; a healthy node and ordered logs always succeed. |
| `Sidecar.WindowIsTruth` | sidecar/ethwrappedclient/rpc_client.go:135-234 | Whatever window is fetched, a successful grouping is the truth about exactly those blocks. |
| `Sidecar.WindowSucceeds` | sidecar/ethwrappedclient/rpc_client.go:175-234 | If every block's logs are in order and extract, no window is refused. |
| `Sidecar.SyncedInWindows` | sidecar/sidecar/sidecar.go:307-330 | Storing two adjacent windows is storing one; nothing is stored twice. |
| `Sidecar.FetchWindow` | sidecar/sidecar/sidecar.go:307-330 | One turn of the loop advances the last synced block without passing the target, or fails and changes nothing. |
| `Sidecar.FetchAndStoreLogsUptoBlock` | sidecar/sidecar/sidecar.go:307-330 | For every window size the loop terminates; wherever it stops the store is what one unbounded fetch to that point would leave; it reaches the target when there is something to fetch, the node answers and the logs are ordered. |
| `Sidecar.MaxSyncable` | sidecar/sidecar/sidecar.go:99-121 | The smaller of the finalized height and the configured end. |
| `Sidecar.CatchUp` | sidecar/sidecar/sidecar.go:178-214 | No block is fetched before it is final or past the configured end; success means caught up, and it succeeds when the finalized height is known, the node answers and the logs are ordered. |
| `Sidecar.QueryBlockEvents` | sidecar/sidecar/sidecar.go:333-366 | The answer as a function of the three reads; a negative height is an error. |
| `SidecarTheorems.QueryIsExact` | sidecar/sidecar/sidecar.go:333-366 | In every reachable state, a query above every height the Sequencer reported, without an update between its reads, returns exactly the block's recognised events or an error, and an error only if the block is not synced or precedes the configured start. |
| `SidecarTheorems.WrongAnswerIff` | sidecar/sidecar/sidecar.go:340-366 | For every block and every interleaving of updates with the three reads: the answer is wrong iff the block has events, lies within the bounds read, and at the first read was not yet stored or had been fast-forwarded over; and exactly when it is an error. |
| `SidecarTheorems.ReadsMisleadIff` | sidecar/sidecar/sidecar.go:340-366 | Above every height the Sequencer reported, three reads in any three successive states mislead iff the block has events, was not fetched at the first read and is synced at the last; they then show no event. |
| `SidecarTheorems.FetchIsTwoSteps` | sidecar/sidecar/sidecar.go:307-330 | One fetch of a window is two steps of the interleaving model, storing and moving the last block, with the store the fetch method leaves. |
| `SidecarTheorems.RaceExample` | sidecar/sidecar/sidecar.go:340-366 | A concrete interleaving with an empty answer for a block with an event. |
| `SidecarTheorems.FastForwardExample` | sidecar/store/eventstore.go:184-186 | A concrete fast-forward after which a block with an event is answered as empty. |
| `SidecarTheorems.AlwaysExact` | sidecar/store/eventstore.go:173-215 | In every state of every run: every entry lies between start and last synced block (or in the window being stored), start is at most one past the last, entries are the truth, and none is missing above the start but those skipped. |
| `SidecarTheorems.NextKeepsWindow` | sidecar/store/eventstore.go:173-215 | Every fetch or calibration step keeps the window bounds and moves them forward only. |
| `SidecarTheorems.NextKeepsExact` | sidecar/sidecar/sidecar.go:307-330 | Every step keeps the entries exact. |
| `SidecarTheorems.OnlyGrows` | sidecar/store/eventstore.go:173-215 | Bounds, floor and skipped blocks only grow along a run. |
| `Encoding.WordIsUint256` | utils/encoding.go:9-30 | For every number: the word exists iff the number is below 256^32, and then is 32 bytes whose big-endian value is the number, through hexadecimal text, the odd-length fix, decoding and padding. |
| `Encoding.EveryHeightEncodes` | utils/encoding.go:9-30 | No uint64 is refused. |
| `Encoding.To32PaddedHexBytes` | utils/encoding.go:12-30 | The Go version computes the word. |
| `Encoding.PadBytes` | utils/encoding.go:33-48 | The buffer copy pads on the left, and errs iff the input is too long. |
| `Encoding.PythonTo32PaddedHexBytes` | scripts/commitment_from_raw_values.py:26-47 | The Python version agrees with the Go version on every number it gets, and refuses negative ones. |
| `Encoding.UnhexIsShortest` | utils/encoding.go:13-24 | Decoding the even-length text of a number gives its shortest big-endian form. |
| `Encoding.SignedFails` | scripts/commitment_from_raw_values.py:26-38 | The text of a negative number never decodes. |
| `Merkle.GetSplitPoint` | scripts/commitment_from_raw_values.py:87-94 | The split point from the bit length, or an error below one. |
| `Merkle.SplitPointIsUnique` | scripts/commitment_from_raw_values.py:87-94 | For n at least 2 it is the one power of two k with k < n <= 2k. |
| `Merkle.RootIsTreeHash` | scripts/commitment_from_raw_values.py:75-110 | For every list the recursion computes the Merkle Tree Hash of section 2.1 of RFC 6962. |
| `Merkle.DepthIsLogarithm` | scripts/commitment_from_raw_values.py:75-94 | The tree's depth is the binary logarithm of its size, rounded up. |
| `Merkle.Collision` | scripts/commitment_from_raw_values.py:75-110 | Two different lists of any lengths with the same root yield two different inputs with the same hash. |
| `Merkle.EncodeLeaves` | scripts/commitment_from_raw_values.py:50-68 | The loop succeeds iff every height is a uint256, and then each item is the height as a 32-byte big-endian word followed by the hash. |
| `Merkle.LeafLayout` | x/commitments/service/encoding.go:8-22 | A leaf encodes iff its height is a uint256: 32 bytes whose big-endian value is the height, then the hash. |
| `Merkle.LeavesInjective` | scripts/commitment_from_raw_values.py:50-68 | The encoded leaves determine the leaves, whatever the lengths of the hashes. |
| `Merkle.CommitmentBinds` | scripts/commitment_from_raw_values.py:50-110 | Two different lists of (height, results hash) with the same commitment yield a collision. |
| `Merkle.CommitmentExists` | scripts/commitment_from_raw_values.py:50-68 | On uint64 heights a commitment always exists. |
| `Inclusion.BridgeCommitment` | x/commitments/service/query_server.go:36-61 | Answers iff the start is not zero and below the end, the range is within the maximum, the end is at most one past the latest height, and every commit loads; then with the RFC 6962 tree hash of the leaves of the heights from start, each a 32-byte word and the hash. |
| `Inclusion.FetchLeaves` | x/commitments/service/query_server.go:143-166 | The loop returns the leaves of the end-exclusive range in order, iff all of them load. |
| `Inclusion.EncodeBridgeCommitment` | x/commitments/service/encoding.go:10-26 | The service's loop agrees with the script's, never fails, and writes each height as a 32-byte word before its hash. |
| `Inclusion.BridgeCommitmentInclusionProof` | x/commitments/service/query_server.go:68-139 | Answers exactly the requests for a height in a valid range that loads and a transaction of the block before; the block proof verifies the requested height's leaf against the commitment, and the result proof the requested result against the leaf. |
| `Inclusion.ProveBlock` | x/commitments/service/query_server.go:85-99 | The leaf is that of the requested height and its proof verifies. |
| `Inclusion.ProofVerifies` | x/commitments/service/query_server.go:94-96 | For every list and index, the proof produced verifies against the root. |
| `Inclusion.TopAunt` | x/commitments/service/query_server.go:94-96 | A proof lists its hashes from the leaf up: the last is the tree hash of the half the item is not in, the others prove the item within its half. |
| `Inclusion.Member` | x/commitments/service/query_server.go:63-67 | Whatever proof verifies against a root, its leaf is one of the items (the one at its index, if its total is right), or there is a collision. |
| `Inclusion.IndexNeedsTotal` | scripts/inclusion_proof_test.go:66-82 | With a wrong total a proof can verify at a wrong index. |
| `Inclusion.VerifiedResultIsReal` | x/commitments/service/query_server.go:63-67 | A leaf verified against a commitment and a result verified against that leaf are the real header entry of a height in the range and a real result of the block before, or there is a collision. |
| `IndexCodec.RoundTrip` | api/fuelsequencer/bridge/index.pulsar.go:339-503 | For all uint64 counters and all unknown bytes, unmarshalling what marshal wrote gives the record back iff the unknown bytes are a sequence of unknown fields; when those are discarded it gives the record without them. |
| `IndexCodec.ReadRoundTrip` | api/fuelsequencer/bridge/index.pulsar.go:339-503 | Every record that was unmarshalled, from whatever bytes, survives being marshalled and unmarshalled again. |
| `IndexCodec.DecodesRecord` | api/fuelsequencer/bridge/index.pulsar.go:397-499 | Reading a printed record overwrites the counters it carries and keeps the others. |
| `IndexCodec.SizeIsLength` | api/fuelsequencer/bridge/index.pulsar.go:307-337 | The computed size is the number of bytes of the wire form. |
| `IndexCodec.Marshal` | api/fuelsequencer/bridge/index.pulsar.go:339-383 | Filling a buffer of the computed size from its end yields the wire form and leaves no gap. |
| `IndexCodec.Unmarshal` | api/fuelsequencer/bridge/index.pulsar.go:384-503 | The loop over the buffer computes the specified record or error. |
| `IndexCodec.UnmarshalField` | api/fuelsequencer/bridge/index.pulsar.go:397-498 | One turn of that loop: a counter, an unknown field or an error. |
| `IndexCodec.FailsIff` | api/fuelsequencer/bridge/index.pulsar.go:397-500 | For any bytes, unmarshalling fails exactly at a field whose tag does not read, ends a group or numbers no field, whose counter has another wire type or does not read, or which cannot be skipped. |
| `IndexCodec.FieldNumber` | api/fuelsequencer/bridge/index.pulsar.go:414 | A field number is the tag shifted, truncated to a signed 32-bit word. |
| `Varints.SovIsLength` | x/bridge/types/tx.pb.go:1756-1758 | The size formula counts exactly the bytes of the varint. |
| `Varints.EncodeVarint` | x/bridge/types/tx.pb.go:1547-1557 | Writes the varint in place, ending at the given offset, and nothing else. |
| `Varints.DecodeVarint` | api/fuelsequencer/bridge/index.pulsar.go:399-414 | The index loop reads what the specification reads and stops at the same place. |
| `Varints.ReadBack` | api/fuelsequencer/bridge/index.pulsar.go:399-414 | For every uint64 and whatever follows, reading what was written yields the number and the rest. |
| `Varints.ReadIsLocal` | api/fuelsequencer/bridge/index.pulsar.go:399-414 | What is read depends only on the bytes that are read. |
| `Varints.ReadFailsIff` | api/fuelsequencer/bridge/index.pulsar.go:400-414 | A varint fails to read iff it does not end within the data or within ten bytes. |
| `Varints.VarintPrefixFree` | x/bridge/types/tx.pb.go:1547-1557 | A buffer that starts with a varint starts with exactly one. |

## Left out

- Event extraction from logs (sidecar/utils/utils.go:49-480): ABI unpacking and message building over libraries; an arbitrary function here.
- gRPC, HTTP, websockets, TLS, rate limits, backoff, timers, locks and metrics: plumbing; locked calls are atomic steps of the model.
- The effects of event, supply delta and native transactions on balances, vesting and supply: their failure is a parameter, their state is not modelled.
- Error texts and logging: an error is a tagged failure. The reason inside a skip transaction is an arbitrary function of the event, except for the fixed one for unauthorised events.
- Wrap-around of heights, sequences, sizes and counters past 2^64: these are unbounded; only gas, varints and the Index counters are modelled as 64-bit words.
- Negative MaxTxBytes and query heights of 2^64 or more: outside what the callers pass.
- An out-of-range slice at app/abci/proposal_handler.go:412 would panic; it is a rejection here.
- A negative transaction index at x/commitments/service/query_server.go:126 would panic; it is a missing answer here.
- Decimal arithmetic of SequencerTxsAllocation beyond truncation: `Params` holds the share as a function of the block space; AllocationIsShare shows that the source's is one.
- Sequencer node failover, upgrades, genesis, export, app wiring and commands: no property of the protocol depends on them.
- Codecs of other messages beyond their injectivity: same pattern as Index.
- Unmarshalling of nested unknown groups: `runtime.Skip` is a parameter that consumes at least one byte or fails; IndexCodec.ReadRoundTrip also trusts it to read no more than it skips.
