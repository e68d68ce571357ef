# Bid inclusion over ABCI 2.0

A model, with proofs, of the protocol by which this application keeps auction bids from being
front-run. Each validator holds a `ThresholdMempool` with a pending pool and a ready pool.
ExtendVote walks the pending pool, publishes the bids it meets and makes their transactions
ready. PrepareProposal folds the collected vote extensions into a special transaction and
offers the ready pool, which a transaction provider may rewrite. ProcessProposal accepts when
every bid offered is reported often enough in the special transaction. `Remove` drops finalized
transactions.

To check the project, run `dafny verify dfyconfig.toml` with Dafny 4.11.

| file | contents |
|---|---|
| Types.dfy | transactions, bids, outcomes, the codecs as parameters |
| Base64.dfy, Json.dfy | the wire format of vote extensions and the special transaction |
| Pools.dfy | the pools as values; the two iterator walks in closed form |
| Mempool.dfy | the mempool as classes over backing arrays with live cursors |
| VoteExt.dfy | the ExtendVote loop, proved against the closed form |
| Provider.dfy | the front-running provider |
| Proposal.dfy | PrepareProposal, ProcessProposal, the fold and the threshold |
| Answers.dfy | the two answers from pool entries, messages and reported byte strings alone |
| Threshold.dfy, Votes.dfy | what the threshold and the fold mean |
| Nodes.dfy | one validator as a state machine; conservation |
| Order.dfy, Reports.dfy, Cursors.dfy, Survival.dfy, LastVote.dfy | theorems about every run of one node |
| Replay.dfy | the classes go through exactly the states of the machine and answer what its logs say |
| Network.dfy | any number of validators, any interleaving; provenance |
| Rounds.dfy | rounds of vote, proposal, verdict and finalization |

## How the source is modelled

- A slice with its cursor (`thTxs`) is a class `ThTxs` with a backing array, a length and `idx`.
  `removeAtIndex` shifts cells inside that array. The pool object is its own iterator, so the
  cursor is live while `Update` shrinks the pool.
- The panic in `Tx` is the outcome `Panicked`. In a run it ends the node.
- `Tx.id` stands for what `Equal` ignores. `Msg.text` is what `String()` prints; nothing is
  assumed about it.
- The encodings are functions in a `Codec` value. Theorems that need it assume `Lawful`:
  decoding undoes encoding, the empty extension does not decode, and different bids have
  different JSON. Json.dfy gives the printed form of extensions and special transactions and a
  reader for it, and proves that they satisfy their part (`Json.StandardIsLawful`). The base64
  step of `Hash` is proved injective.
- `Answers.EarlyProposalAccepted` assumes besides that an encoded transaction does not read as a
  special transaction (`TxsDoNotRead`).
- The provider's signing is a function of the bid. Theorems about verdicts assume that the
  signed transaction carries that bid (`Faithful`).
- `int(float64(n) * 0.5)` is `n / 2`.
- Clauses written `{:induction false}` switch off automatic induction, so that each proof is
  the one in the text.

## Where the code differs from its documentation

- The workshop text says ExtendVote selects all pending bids. The walk skips every second
  transaction, and can panic. `Cursors.LiveCursor` says what it visits,
  `Reports.ReportsAllBidsIff` when it reports all pending bids, `Cursors.VisitsAllIff` when it
  visits all pending transactions, `Survival.SurvivesIff` which runs avoid the panic, and
  `Survival.BacklogNeverClears` that a backlog of two never shrinks again.
- The text describes a threshold over validators. The code counts reported bids.
  `Votes.UniformVerdict` shows that a bid reported by every vote can be rejected and says
  exactly when; `Votes.SoleBidVerdict` gives the exact condition over arbitrary votes for a
  proposal of one bid, and `Votes.MajorityAccepted` derives the promise for votes of at most one
  bid each.
- An absent vote repeats the last decodable extension before it (`Votes.AbsentVotesRepeat`), so
  votes are not always counted once; `Votes.CountedOnceIff` says when they are.
- With fewer than two bids in the special transaction the threshold is zero and lets everything
  through (`Threshold.UnreportedBid`).
- The text says a proposed transaction was seen by ExtendVote at the previous height. It was
  seen by some earlier ExtendVote (`Reports.OnlyVotedTxsOffered`); a ready transaction stays
  ready until it is finalized, and `LastVote.OlderVoteStillOffered` is a run in which one from an
  older vote is offered. `LastVote.OffersLastVoteIff` and `LastVote.OffersOnlyLastVoteIff` say
  exactly when a proposal offers only what the latest vote saw, right after the vote and in any
  run.

## Model

| member | source | states |
|---|---|---|
| Pools.EqualIsSameClass | mempool/mempool.go:171-187 | `Equal` is the same-class relation for sender and message strings, hence an equivalence |
| Pools.FirstMatch | mempool/mempool.go:93-98 | the position of the first `Equal` entry; none before it is `Equal` |
| ThresholdPool.ThTxs.RemoveAtIndex | mempool/mempool.go:189-191 | shifting the tail inside the shared backing array refines deletion from the sequence; array and cursor stay |
| ThresholdPool.ThTxs.Append | mempool/mempool.go:52 | appending keeps the entries and the cursor, in place or in a larger array |
| ThresholdPool.ThTxs.Next | mempool/mempool.go:144-155 | nil exactly on an empty pool or the last entry; otherwise the same object one further |
| ThresholdPool.ThTxs.Tx | mempool/mempool.go:157-163 | the entry under the cursor, or the panic when the cursor is out of range |
| ThresholdPool.ThTxs.Find | mempool/mempool.go:93-98 | the first entry `Equal` to the argument, or the length |
| ThresholdPool.ThresholdMempool.constructor | mempool/mempool.go:20-24 | both pools empty with zero cursors |
| ThresholdPool.ThresholdMempool.Insert | mempool/mempool.go:26-57 | a signed transaction joins the end of pending with priority 0; failures change nothing |
| Pools.InsertMeaning | mempool/mempool.go:26-57 | from the signatures: unreadable and empty ones give their own error and change nothing; else no error, and pending gains the transaction at its end under its first signer |
| ThresholdPool.ThresholdMempool.Select | mempool/mempool.go:59-65 | nil on an empty ready pool, else the pool itself with its saved cursor |
| ThresholdPool.ThresholdMempool.SelectPending | mempool/mempool.go:67-73 | nil on an empty pending pool, else the pool itself with its saved cursor |
| ThresholdPool.ThresholdMempool.Update | mempool/mempool.go:75-103 | the first match leaves pending, the transaction passed in joins ready with priority 1, cursors stay; failures change nothing |
| Pools.UpdateMeaning | mempool/mempool.go:75-103 | signature errors as for `Insert`; not found iff no pending transaction has the same first signer and message strings; else the first of those leaves pending and the transaction passed in ends ready |
| ThresholdPool.ThresholdMempool.CountTx | mempool/mempool.go:105-107 | the number of pending entries |
| ThresholdPool.ThresholdMempool.Remove | mempool/mempool.go:109-135 | the first match leaves ready, the cursor stays; failures change nothing |
| Pools.RemoveMeaning | mempool/mempool.go:109-135 | the same errors; else the first ready transaction with the same first signer and message strings is dropped and nothing else changes |
| VoteExt.CollectBids | abci/vote_ext.go:37-49 | the bids of the messages that could be marshalled, in order |
| Reports.ReportOfMsgsAppend | abci/vote_ext.go:37-49 | the bids of two message lists put together are those of the first, then those of the second |
| Reports.ReportOfOne | abci/vote_ext.go:37-49 | one message contributes its marshalled bid, or nothing if it is not a bid or does not marshal |
| VoteExt.UpdateAtCursor | mempool/mempool.go:93-98 | `Update` of the entry under the cursor removes an entry at or before it, so the later entries slide down by one, duplicates included |
| VoteExt.UpdateThenNext | abci/vote_ext.go:51-60 | the end of the loop body: the state after `Update` and `Next`, and nil exactly when the cursor did not move |
| VoteExt.ExtendVote | abci/vote_ext.go:23-77 | the loop over the live cursor ends in the closed form: every second entry from the cursor is reported and made ready; it returns iff the distance to the end is even or one entry lies under cursor 0, else it panics |
| Reports.PublishedInOrder | abci/vote_ext.go:32-61 | the k-th byte string published is the marshalled k-th bid message that marshals, over the visited transactions in visiting order |
| Pools.StridedLength | abci/vote_ext.go:32-61 | the number of entries visited is half the distance from cursor to end, rounded up |
| Pools.StridedAt | abci/vote_ext.go:32-61 | the k-th entry visited is original entry c + 2k |
| Cursors.LiveCursor | abci/vote_ext.go:30-61 | one ExtendVote in numbers: entries visited, entries left, what joins ready, where the cursor ends |
| Cursors.VisitsAllIff | abci/vote_ext.go:32-61 | all pending transactions are visited iff there is none, or one under cursor 0 |
| Reports.ReportsAllBidsIff | abci/vote_ext.go:30-61 | all pending bids are reported iff the transactions before the cursor or at odd distance from it carry none |
| Cursors.PendingCursorSafe | mempool/mempool.go:67-73 | in every run whose walks returned, the next walk starts in range |
| Survival.SurvivesIff | abci/vote_ext.go:32-61 | a node survives a run, with Prepare and Remove anywhere in it, iff a recurrence on the numbers inserted between its votes is defined and no PrepareProposal panicked; then that recurrence gives its pending pool and cursor |
| Survival.UnbrokenPreparesReturn | abci/proposal.go:60-67 | no PrepareProposal panics in a run whose `Remove` calls never break the ready cursor |
| Survival.BacklogNeverClears | abci/vote_ext.go:32-61 | once two are left over, the node lives exactly while all batches are odd, and the backlog never decreases |
| Nodes.Priorities | mempool/mempool.go:42-48 | in every run pending entries have priority 0 and ready ones priority 1, each with its own sender |
| Nodes.Conservation | mempool/mempool.go:26-135 | in every run, for each `Equal` class: inserted = pending + ready + removed |
| Nodes.UpdateKeepsIdentity | mempool/mempool.go:87-98 | `Update` keeps the transactions themselves iff the first match is the one passed in |
| Order.FirstInFirstOut | mempool/mempool.go:52 | in every run pending is a subsequence of insertion order and ready of `Update` order |
| Reports.ReportReadyAgreement | abci/vote_ext.go:32-61 | in every run the published bids, end to end, are the bids of the readied transactions in the same order |
| Reports.ReadyWereInserted | mempool/mempool.go:93-98 | in every run each ready transaction was inserted before |
| Reports.ReadyWasReported | abci/vote_ext.go:38-49 | each marshallable bid in a live node's ready pool is in one of its own extensions |
| Reports.OnlyVotedTxsOffered | abci/proposal.go:60-67 | a proposal's walk yields only transactions an earlier ExtendVote of that node made ready |
| LastVote.OlderVoteStillOffered | abci/proposal.go:60-67 | a run whose second proposal still offers a transaction that only the vote before the last saw |
| LastVote.OffersLastVoteIff | abci/proposal.go:60-67 | right after a vote the walk is no longer than what that vote made ready, and a suffix of it, iff the ready cursor was past the ready pool as the vote began; otherwise older transactions come first |
| LastVote.SafeOffersLastVoteIff | abci/proposal.go:60-67 | with a ready cursor in range that is iff the ready pool was empty as the vote began |
| LastVote.RunDivided | mempool/mempool.go:93-132 | in every run the ready pool is what is left from before the latest vote, then what is left of that vote, each in order |
| LastVote.OffersOnlyLastVoteIff | abci/proposal.go:60-67 | in every run the next proposal offers only what the latest vote made ready iff the cursor is past the older entries |
| Proposal.WalkReady | abci/proposal.go:60-67 | the walk yields the ready pool from the saved cursor on and leaves the cursor on the last entry; it panics iff the pool is not empty and the cursor is out of range |
| Cursors.RemoveSafety | mempool/mempool.go:127-132 | `Remove` breaks a safe ready cursor iff it drops one of at least two entries with the cursor on the last |
| Cursors.ReadyCursorSafeIff | mempool/mempool.go:59-65 | the ready cursor is in range throughout a run iff no `Remove` of the run meets that case |
| Cursors.ReadyCursorSafe | mempool/mempool.go:59-65 | in runs that remove only from ready pools of at most one, the ready cursor stays in range |
| Cursors.PrepareNeverPanics | abci/proposal.go:60-67 | PrepareProposal never panics in runs that remove only from ready pools of at most one |
| Cursors.PrepareCanPanic | abci/proposal.go:60-67 | without that, two proposed transactions of which one is finalized make the next proposal panic |
| Cursors.EveryReadyTxIsOffered | abci/proposal.go:60-67 | without `Remove`, each proposal offers everything readied since the last one, and consecutive walks overlap in exactly one transaction |
| Replay.CallAll | mempool/mempool.go:26-163 | the classes, called in any sequence, go through exactly the states of the state machine, and return the extensions and walks in its logs |
| Proposal.ProcessVoteExtensions | abci/proposal.go:137-171 | the fold with the shared `ve` equals the declarative sum of per-vote contributions |
| Votes.NoVoteDecodes | abci/proposal.go:140-151 | when no vote decodes the special transaction has height 0 and no bids |
| Votes.LastDecodableIs | abci/proposal.go:151-157 | the extension in force after a vote is the latest one that decodes |
| Votes.NoneDecodable | abci/proposal.go:151-157 | there is none exactly when no vote so far decodes |
| Votes.CarryForward | abci/proposal.go:151-168 | one more vote adds its own bids, or those of the last decodable extension, or nothing |
| Votes.AbsentVotesRepeat | abci/proposal.go:151-168 | k absent votes add the last decodable extension's bids k more times |
| Votes.AllDecoded | abci/proposal.go:151-168 | when all decode, the bids are concatenated in order and multiplicities add up over the votes |
| Votes.CountedOnceIff | abci/proposal.go:151-168 | the special transaction holds the bids of the decoding votes once each, in sequence and already in multiplicity, iff no vote that fails to decode repeats a bid |
| Votes.ContributionsCarried | abci/proposal.go:151-168 | a bid is in the special transaction iff some vote carries it |
| Proposal.PrepareProposal | abci/proposal.go:36-90 | above height 2 the special transaction first, then the encoded transactions of the walk, rewritten if there is a provider |
| Answers.ProposalWithoutProvider | abci/proposal.go:36-90 | for any height, votes and ready pool: the panic iff the cursor is out of range of a pool that is not empty; else the special transaction in front iff the height is above 2, then entry by entry the bytes of the ready transactions from the cursor on |
| Answers.ProposalWithProvider | abci/proposal.go:60-86 | the same with a provider: the entries are the bytes of one copy per message in order, with the signed counter-bid right before each copy for a bid, and nowhere else |
| Proposal.EncodeAll | abci/proposal.go:78-84 | each transaction encoded in order, a failed encoding as no bytes |
| Proposal.CountReports | abci/proposal.go:192-202 | the frequency map equals multiset counting of the hash keys |
| Proposal.CollectProposalBids | abci/proposal.go:174-190 | all bids of the body in order, or the error when an entry does not decode |
| Answers.BidsOfBodyAppend | abci/proposal.go:174-190 | the bids of two bodies put together are those of the first, then those of the second |
| Answers.BidsOfMsgsAppend | abci/proposal.go:183-189 | the bids of two message lists put together are those of the first, then those of the second |
| Proposal.ValidateBids | abci/proposal.go:173-226 | true iff every body bid has frequency at least half the number of reports; the error iff something does not decode or hash |
| Proposal.ProcessProposal | abci/proposal.go:92-135 | accepts iff there is no transaction, or no special bids, or the body is endorsed by the reports |
| Answers.VerdictFromMessages | abci/proposal.go:92-226 | accepted iff the proposal is empty, its first entry is not a special transaction or has no bids, or everything decodes and hashes and each bid message is for a bid that at least half of the reported byte strings unmarshal to |
| Answers.PlainProposalAccepted | abci/proposal.go:102-133 | an empty proposal, or one whose first entry is not a special transaction, is accepted whatever follows |
| Answers.EarlyProposalAccepted | abci/proposal.go:41-133 | at heights up to 2 what PrepareProposal builds from any ready pool in range is accepted, provider on or off |
| Threshold.HashInjective | abci/proposal.go:228-234 | equal hash keys mean equal bids |
| Threshold.HashIsJson | abci/proposal.go:228-234 | hashing succeeds iff the bid has JSON, and the key is the base64 of that JSON |
| Threshold.FrequencyIsMultiplicity | abci/proposal.go:192-202 | a bid's frequency is its multiplicity among the reported bids |
| Threshold.EndorsedIff | abci/proposal.go:204-224 | the verdict on a body, bid by bid, as a multiset count |
| Votes.CountingBound | abci/proposal.go:192-224 | an accepted proposal over n >= 2 reports holds at most two different bids, or three when n = 3 |
| Threshold.UnreportedBid | abci/proposal.go:204-224 | an unreported bid is let through iff there are fewer than two reports |
| Threshold.ReportOrderIrrelevant | abci/proposal.go:192-224 | the verdict is the same for every permutation of the reports |
| Threshold.BodyOrderIrrelevant | abci/proposal.go:174-224 | the verdict is the same for every reordering or repetition of the body |
| Threshold.OneMoreReport | abci/proposal.go:192-224 | one more report of the only bid never turns acceptance into rejection |
| Votes.UniformVerdict | abci/proposal.go:137-224 | if v votes each report the same k different bids, a proposal of some of them is accepted iff k <= 2, or k = 3 and v = 1 |
| Votes.SoleBidVerdict | abci/proposal.go:151-224 | for any decoding votes, a proposal of one bid is accepted iff nothing is reported, or all reports hash and at least half of the reported byte strings unmarshal to the bid |
| Votes.SoleBidVerdictByVotes | abci/proposal.go:151-224 | when every reported byte string is canonical, iff the bid's marshalled form is at least half of all reported bids |
| Votes.MajorityAccepted | abci/proposal.go:151-224 | with at most one bid per vote, a bid reported by half of the votes is accepted |
| Votes.AcceptedWasVoted | abci/proposal.go:92-224 | with at least two special bids, every accepted bid was carried by one of the votes, whatever the votes are |
| Network.RunOk | abci/vote_ext.go:23-77 | the invariant of every run of the network: at every node the reports match the ready pool and come from inserted transactions |
| Network.AcceptedBidsWitnessed | abci/proposal.go:92-226 | in every run of any number of validators, for any body: an accepted bid was published, in a collected vote, by an ExtendVote that walked over a transaction with it inserted at that validator before |
| Network.Provenance | abci/proposal.go:36-226 | the same for every proposal PrepareProposal builds in the run, provider on or off: inserted before published, published before proposed |
| Provider.MatchingBidOutbids | provider/provider.go:136-153 | the counter-bid is for the same name, from the provider's account, and in each denomination offers twice as much, strictly more exactly where the bid offers anything |
| Provider.BuildProposal | provider/provider.go:155-181 | the nested loops produce the plan of copies and signed counter-bids |
| Provider.RewritingKeepsOrder | provider/provider.go:155-181 | without counter-bids the output is each input once per message in order; its length is messages plus bid messages |
| Provider.RewritingUndone | provider/provider.go:155-181 | erasing counter-bids gives single-message input back |
| Provider.CounterBidsComeFirst | provider/provider.go:168-176 | the copies are made for each message of each transaction in order, and each copy for a bid message, and only such a copy, directly follows the counter-bid to that bid |
| Provider.PlanIsDetermined | provider/provider.go:155-181 | these properties determine the output: only one arrangement of copies and counter-bids has them |
| Rounds.HonestRound | abci/proposal.go:36-135 | in a round on one bid a proposer without provider offers exactly the special and the bid transaction, and is accepted |
| Rounds.SpecialOfRound | abci/proposal.go:137-171 | the special transaction of a round holds the bid once for each holder whose vote was collected |
| Rounds.VerdictOfRound | abci/proposal.go:92-135 | in a round on one bid a body is accepted iff at most one collected vote reports the bid or the body holds no other bid |
| Rounds.EveryRoundAccepted | abci/proposal.go:36-135 | the same for every round of any sequence of rounds, after which all pools and cursors are back at the start |
| Rounds.CounterIsBidIff | provider/provider.go:144-149 | a counter-bid equals the bid only for the provider's own bid of nothing |
| Rounds.SnipeRejection | provider/provider.go:136-181 | the front-running proposal of such a round is rejected iff at least two collected votes report the bid and the counter-bid differs from it |
| Rounds.NonZeroBidIsSafe | abci/proposal.go:204-224 | for a bid with a non-zero coin the rejection is exactly two or more reports |
| Base64.DecodeIffEncoded | abci/proposal.go:228-234 | decoding accepts exactly the encodings and returns the encoded bytes |
| Base64.EncodeInjective | abci/proposal.go:228-234 | equal base64 keys mean equal JSON |
| Base64.LettersOfAlphabet | abci/proposal.go:233 | the letters are the 64 of RFC 4648 in order, and the padding mark is `=` |
| Base64.FullGroupText | abci/proposal.go:233 | three bytes become four letters of the same value in base 64, followed by the text of the rest |
| Base64.LastGroupText | abci/proposal.go:233 | one or two last bytes become two or three letters of the shifted value and padding |
| Json.ParseIffPrinted | abci/types.go:43-51 | for every height and list of byte strings, parsing and printing undo each other in both directions |
| Json.PrintedText | abci/types.go:43-51 | the printed form is `{"Height":`, the height in decimal, `,"Bids":[`, the quoted base64 texts joined by commas, and `]}` |
| Json.DecimalDigit | abci/vote_ext.go:70 | the k-th character of a number from the right is its digit at ten to the k |
| Json.DecimalLength | abci/vote_ext.go:70 | a number is printed with as many characters as it has digits |
| Json.StandardIsLawful | abci/proposal.go:51 | the printed form and its reader meet the assumptions the other theorems make about extensions and special transactions |

## Left out

- CometBFT and BaseApp: they appear only as the environment that calls the handlers, in any order.
- Concurrency between CheckTx and the handlers: each call is one step; the code has no locks.
- Proposal.ProcessVoteExtensions: a vote extension decodes as a whole or not at all. Go's decoder also keeps the good fields of an object with a field of the wrong type, and leaves a field that is absent as it was.
- Json.ParseIffPrinted: this reader accepts the printed form only; Go's also reads other spellings of the same object. The theorems about votes hold of any reader that reads the printed form.
- Json.ParsePrint: a nil list or nil byte string, printed as `null`, is not modelled; the handlers never build one.
- Provider.BuildProposal: signing, keyring and account lookup are assumed to succeed. `MulInt` panics on an invalid denomination, a negative amount or a doubled amount over 256 bits; here denominations are any string and amounts any natural number.
- Proposal.ValidateBids: floating point rounding above 2^53 reports.
- The JSON and the protobuf form of a bid, the transaction encoding and address encoding: other libraries; they are parameters.
- Rounds.SnipeRejection: assumes the counter-bid's transaction encodes and its bid hashes.
- Network.Provenance: assumes the special transaction comes from PrepareProposal; a proposer that forges it is not considered.
- `LocalSigner.Init` and `LocalTxProvider.Init`: they only copy configuration.
- Logging, error texts, app wiring, genesis export, command line and scripts.
