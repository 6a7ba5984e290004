# CoreDRP: model and proofs

CoreDRP relays accounting events from a sender's write-ahead log to a receiver's database, exactly once, and fixes the
exact arithmetic and encodings by which those events are later settled. This project models its core and proves what
the design promises of it. All Dafny files belong to one project, described by `dfyconfig.toml`.

**Durable relay.** `Stream`, `Wire` and `HashChain` give events, their validation and the hash chain. `WalFile` is the
framed log file and what reading it back yields; `Sender` and `Receiver` say what each operation does to the sender's
disk and memory and to the receiver's tables. `Wal`, `Storage` and `Drain` are the program's classes and loops, with
state updated in place and proved against those functions; I/O failures are parameters that say how far a write got.
`Relay` puts one sender, one receiver and their connections together as a step system of nineteen steps, in which
every durable write is a step of its own, a crash may cut the file at any octet past the synced length, messages may be
lost or arrive late, and sessions may take each other over. `RelayInvariant`, `RelaySender` and `RelayNetwork` prove
its invariant, `RelayTheorems` its guarantees over all runs, `RelayRefinement` ties the classes to the steps,
`Agreement` draws the conclusion for the handshake, and `RelayInstance` shows that the assumptions can be met.
`SenderDecisions` and `ReceiverDecisions` say for each operation exactly when it succeeds, in terms of the log alone, and
which code each refusal has.

**Exact settlement.** `Binary64`, `Binary64Rounding` and `Binary64Theorems` are correctly rounded conversion by integers
(sections 3.4 and 4.3.1 of IEEE 754-2019), for any binary format, with binary64 as the instance. `Digits` and `Decimal`
are canonical amounts, `Window` the paginated share selection, `Allocation` the division of a reward, `Audit` the
recomputation of a settlement from its events, `AuditDecisions` exactly when it accepts and what it then lists,
`RetainedBundles` the same from a bundle with a recorded digest. Exact fractions outside the rounding algorithm are
`real`.

**Permission withdrawal.** `Withdrawal` is what senders and the receiver compute, `WithdrawalNodes` their state updated
in place, `WithdrawalProtocol` the step system of many senders and one receiver, `WithdrawalExact` the exact condition
under which a sender, or a whole transition, is safe in every continuation, `WithdrawalAdmissions` the evidence behind
every admission and exactly when each operation succeeds.

**Encodings.** `Encoding` is the schema-driven encoder for any table of record types, `EncodingTypes` exactly which values
it encodes and how, `Requests` the program's table, admission identities and the accounting-group ledger,
`RequestDecisions` exactly which requests have an identity, `AdminBody` the printer and validator of administrative
actions.

**Evidence and the state machine.** `Merkle` and `Candidate` are the block checks, `Carry` the remainder check of
shadow accounting, `CoreModel` the TLA+ state machine for every bound on its counters, `CoreProgress` what it can always
still do.

`Arithmetic`, `Bytes`, `ByteOrder`, `Collections` and `Wrappers` are shared.

## Assumptions

- SHA-256 is a function with 32-octet results. Nothing more is assumed of it in general; where a conclusion needs
  absence of collisions, the lemma requires it of exactly the strings hashed in that statement.
- A sync, an anchor replacement and a committed transaction are durable. The anchor file is replaced atomically.
- Record text and payload messages are parameters that read back what they wrote, for records of the sizes an admission
  can produce. Stored events are compared by their fields.
- Relay ids are never drawn twice.
- The sender admits nothing while a connection is open: the caller holds the sender lock for the whole stream
  (`reference/coredrp_ref/transport.py:96`), so an admission step needs an idle process.
- `RelayInstance.ExampleOk` gives a concrete stream and codec that meet the relay's assumptions.
- In the withdrawal protocol, no-relay evidence is sent only on issuance, acknowledgements come only from staging that
  succeeded, staging uses the scope of the transition, and a digest stands for one scope, generation and effective time.

## Findings

- Committing a transition does not withdraw older evidence from every sender. The required set is members and no-relay
  holders (`tools/financial_semantics.py:195-198`); a sender that is neither, but holds relay-required evidence of an older
  generation, can still admit past the boundary, and `WithdrawalExact.FormerMemberEscapes` is such a run. A sender is
  safe, in all continuations, exactly when it holds a cap at least as strong as the boundary or has lost its history
  (`tools/financial_semantics.py:101-106`, `WithdrawalExact.ExactlyWhenSafe`); a transition is safe for all senders exactly
  when each of them staged it, or is stopped in that way and has not admitted past it so far
  (`WithdrawalExact.WithdrawnExactly`).
- In the state machine the guard that is meant to freeze the current epoch during a gap (`model/CoreDRP.tla:41`) is never
  in force: a recorded gap always belongs to the retired epoch (`model/CoreDRP.tla:119-120`, `CoreModel.MarksOrdered`).
- The limit of 38 digits on decimals (`tools/financial_semantics.py:12`) is implied by the pattern
  (`Decimal.DigitCountRedundant`).

## Model

| member | source | states |
|---|---|---|
| `RelayTheorems.ExactlyOnceAlways` | reference/coredrp_ref/wal.py:79-145 | In every reachable state, under any interleaving of crashes, lost messages, takeovers and reconnects: ack <= head <= anchored tail <= durable records, at most one record past the anchor, receiver events 1..head equal the sender's events 1..head, and there is exactly one event row and one effect row per sequence. |
| `RelayTheorems.NextInv` | reference/coredrp_ref/transport.py:113-138 | Every one of the nineteen steps of sender, network and receiver keeps the relay's invariant. |
| `RelayTheorems.NextGrows` | reference/coredrp_ref/wal.py:102-146 | No step loses or changes a durable record, a committed row, or a sequence already answered to a caller. |
| `RelayTheorems.AdmittedOnce` | reference/coredrp_ref/wal.py:102-125 | Through everything that follows, the record a caller was answered for stays in the durable log at its sequence and is the only one under its key. |
| `RelayTheorems.CrashAnywhere` | reference/coredrp_ref/wal.py:114-124 | A crash may cut the file at any octet past the synced length: each such cut is a step of the model, of a file that already ends in a broken record too. |
| `RelayTheorems.ReopensUnlessTorn` | reference/coredrp_ref/wal.py:79-101 | In every reachable state reopening succeeds if and only if the file does not end inside a record, and then memory is that of exactly the records on disk. |
| `RelayTheorems.NeverRefused` | reference/coredrp_ref/storage.py:74-78 | In every reachable state: the hello of a connecting sender opens a session, the greeting is accepted, the head is adopted, a batch at the owning session commits, and the acknowledgement that arrives is the one in flight and is accepted. |
| `RelayTheorems.CanAlwaysSend` | reference/coredrp_ref/transport.py:117-127 | A connected sender with unacknowledged events and nothing in flight can always send a batch. |
| `RelayTheorems.AckShortensBacklog` | reference/coredrp_ref/transport.py:131-133 | Every acknowledgement strictly decreases tail minus ack, which never becomes negative. |
| `RelayRefinement.AdmissionSteps` | reference/coredrp_ref/wal.py:102-125 | A successful admission is a write, a sync, an anchor replacement and a return: these four steps end in the disk and memory that Wal.AdmitCheckpoint promises. |
| `RelayRefinement.AdmissionFails` | reference/coredrp_ref/wal.py:114-124 | An admission stopped by any fault in write, sync or anchor replacement is a path of steps ending in a crash, with exactly the disk that Wal.AdmitCheckpoint promises for that fault. |
| `RelayRefinement.RecoverSteps` | reference/coredrp_ref/wal.py:79-101 | Every outcome of reopening - corruption, a failing sync, a failing anchor, success - is a path of steps with the disk and memory that Wal.Recover promises. |
| `RelayRefinement.AcknowledgeSteps` | reference/coredrp_ref/wal.py:126-132 | Taking the acknowledgement that arrives, with or without a fault, is a path of steps with the disk and memory that Wal.Acknowledge promises. |
| `RelayRefinement.BindSteps` | reference/coredrp_ref/wal.py:133-145 | A successful bind is two steps that end in the anchor and memory that Wal.Bind promises. |
| `RelayRefinement.BindFails` | reference/coredrp_ref/wal.py:133-145 | A bind stopped by a fault in either anchor replacement is a path of steps ending in a crash, with exactly the anchor that Wal.Bind promises for those faults. |
| `RelayRefinement.IncreaseCapSteps` | reference/coredrp_ref/wal.py:75-78 | Raising the cap, with or without a fault, is a path of steps with the disk and memory that Wal.IncreaseCap promises. |
| `RelayNetwork.HelloAccepted` | reference/coredrp_ref/storage.py:66-80 | A connecting sender's own hello is never refused with a rollback or split. |
| `RelayNetwork.BatchCommitted` | reference/coredrp_ref/storage.py:91-119 | A batch that reaches the owning session is committed and moves the head to its last event. |
| `Sender.CrashRecovery` | reference/coredrp_ref/wal.py:79-101 | Any log cut at any octet past its durable records: reopening either fails because the cut is inside a record, or restores exactly a prefix that keeps every durable record. |
| `Sender.RecoverComplete` | reference/coredrp_ref/wal.py:79-101 | A file of complete records whose prefix is anchored reopens to exactly the events, hashes, keys, last time and floor of that log. |
| `Sender.RetryReturnsOriginal` | reference/coredrp_ref/wal.py:105-107 | Retrying an admitted key returns its original sequence when the request is the same and is a conflict otherwise; it never appends. |
| `Sender.AdmitContinues` | reference/coredrp_ref/wal.py:108-125 | An admitted record continues the log in the sense the reader checks, and the updated memory is that of the longer log. |
| `SenderDecisions.AdmitExactly` | reference/coredrp_ref/wal.py:102-113 | An admission appends if and only if the key is 1 to 128 octets and in no record of the log, the sender is bound, the candidate record continues the log by the rule that reading it back applies, and its frame fits the cap; what is appended is that record. |
| `SenderDecisions.AdmitRefusals` | reference/coredrp_ref/wal.py:102-113 | Otherwise the first of these that fails decides the code. |
| `SenderDecisions.ContinuesByLast` | reference/coredrp_ref/wal.py:88-93 | That rule in terms of the log's last event: the next number, a new key, no earlier time, a time past its boundary, a boundary not behind it, and the chain hash of the longer log. |
| `SenderDecisions.AcknowledgeExactly` | reference/coredrp_ref/wal.py:126-132 | A position is taken as acknowledged if and only if it is between the acknowledged one and the end of the log and comes with the chain hash of the log up to there; each failure has its code. |
| `SenderDecisions.BindExactly` | reference/coredrp_ref/wal.py:133-145 | A greeting is accepted if and only if it has well-sized identities, comes from the remembered peer if there is one, has the built-in contract, and names a position of the log, not behind the acknowledged one, with the chain hash of the log up to there. |
| `SenderDecisions.BindRefusals` | reference/coredrp_ref/wal.py:133-145 | Which code refuses another receiver, another incarnation, another contract, each wrong position and a split log. |
| `SenderDecisions.ReadOnlyFrames` | reference/coredrp_ref/wal.py:80-93 | Whatever the file holds, it reads back only if it is a sequence of complete frames, each with the hash of its own content, of records that form a log, and then yields that log. |
| `SenderDecisions.ReopensExactly` | reference/coredrp_ref/wal.py:79-101 | A log on disk reopens if and only if the anchor describes a prefix of it. |
| `WalFile.ReadComplete` | reference/coredrp_ref/wal.py:83-93 | Reading back the frames of a log yields exactly the log's image. |
| `WalFile.ReadBroken` | reference/coredrp_ref/wal.py:84-87 | A file that ends inside a record does not read back at all. |
| `WalFile.ImageMirrors` | reference/coredrp_ref/wal.py:88-93 | The image of a log: its events numbered from one, hash i the chain hash of the first i events, keys exactly the callers' keys with request and sequence, and the last time and floor. |
| `Wal.Wal.Recover` | reference/coredrp_ref/wal.py:79-101 | Success exactly when no broken record ends the file and neither sync nor anchor fails; memory is then that of all records on disk, all synced; a broken record changes nothing. |
| `Wal.Wal.ReadBack` | reference/coredrp_ref/wal.py:80-93 | The reading loop returns exactly the image of the file, or corruption exactly when the file has none. |
| `Wal.Wal.AdmitCheckpoint` | reference/coredrp_ref/wal.py:102-125 | Answers, refuses without a change, or appends, syncs and anchors exactly one record; an I/O failure closes the log and leaves exactly the file and anchor that the fault let through. |
| `Wal.Wal.Acknowledge` | reference/coredrp_ref/wal.py:126-132 | Moves the acknowledged position to a position and hash the sender remembers; refuses others without a change; repeating the position writes nothing. |
| `Wal.Wal.Bind` | reference/coredrp_ref/wal.py:133-145 | Accepts a greeting only from the remembered receiver, at a remembered position with the remembered hash; binds and adopts that position. |
| `Wal.Wal.IncreaseCap` | reference/coredrp_ref/wal.py:75-78 | Only a larger cap is taken, and it is saved before success. |
| `Wal.Wal.Save` | reference/coredrp_ref/wal.py:69-74 | A closed log writes nothing; otherwise the anchor file is the old one or the new one, as far as the fault let it get, and a failure closes the log. |
| `Wire.HashAgreement` | reference/coredrp_ref/wire.py:18-36 | Two well-formed logs with one chain hash are the same log, whatever their lengths, unless strings hashed along them collide. |
| `Wire.PreimageFields` | reference/coredrp_ref/wire.py:34-36 | The hashed string determines the previous hash, every field of the event, and the payload hash. |
| `Wire.ValidateExactly` | reference/coredrp_ref/wire.py:20-32 | An event is valid if and only if its sequence is in 1 to 2^63-1, its type is 1, its scope empty, its payload at most 4096 octets, its relay id 16 octets that are not all zero, its time in range, and its payload's boundary between 0 and that time; the boundary is the result. |
| `Wire.ValidateRefusals` | reference/coredrp_ref/wire.py:20-32 | The code for each part that fails. |
| `Agreement.GreetingAgreement` | reference/coredrp_ref/wal.py:133-145 | If a greeting is accepted and its chain hash is that of a well-formed log, that log is exactly the sender's first committed events. |
| `Agreement.SplitDetected` | reference/coredrp_ref/wal.py:141-143 | A receiver that holds other events at its committed position is refused, and with the split code once the receiver and position checks pass. |
| `Receiver.IngestOverlays` | reference/coredrp_ref/storage.py:91-119 | An accepted batch lays its events over the log: existing rows stay, unseen events are appended, the tables stay consistent, and the head is the larger of the two ends. |
| `ReceiverTheorems.IngestIdempotent` | reference/coredrp_ref/storage.py:106-108 | Ingesting an accepted batch again is accepted, changes nothing, and gives the same acknowledgement. |
| `ReceiverTheorems.AlteredReplayRefused` | reference/coredrp_ref/storage.py:106-108 | A batch whose event differs from the stored one at its sequence is refused, even with a recomputed terminal hash. |
| `ReceiverTheorems.FencedForever` | reference/coredrp_ref/storage.py:79-80 | Opening a session fences every earlier session for good: whatever reaches the receiver afterwards, a batch on an earlier session is refused. |
| `ReceiverTheorems.TablesStayOk` | reference/coredrp_ref/storage.py:69-116 | Whatever hellos and batches reach the receiver, its tables stay consistent and event and effect rows only accumulate. |
| `ReceiverTheorems.HonestBatchAccepted` | reference/coredrp_ref/storage.py:91-119 | Any piece of an honest log that starts no later than the head plus one, within credit, is accepted, and the tables hold a prefix of that log again. |
| `ReceiverTheorems.HonestHelloAccepted` | reference/coredrp_ref/storage.py:66-82 | A hello whose acknowledged position lies in the log the receiver holds opens a session. |
| `ReceiverDecisions.OpenExactly` | reference/coredrp_ref/storage.py:60-80 | A hello opens a session if and only if the receiver's head is between the acknowledged position and the tail, and the remembered hash is the chain hash of the receiver's own log up to the acknowledged position. |
| `ReceiverDecisions.OpenRefusals` | reference/coredrp_ref/storage.py:60-78 | Invalid handshake, sender rollback, receiver rollback and split log, each for exactly its part. |
| `ReceiverDecisions.AlwaysOrderly` | reference/coredrp_ref/storage.py:109-113 | Whatever hellos and batches reach the receiver, what it committed is a log in order, and no relay id is committed twice or taken from another stream. |
| `ReceiverDecisions.IngestExactly` | reference/coredrp_ref/storage.py:85-119 | A batch commits if and only if it is within the limits and the credit, comes on the session that owns the stream, agrees with what is stored, makes a log in order with new relay ids, and names that log's chain hash. |
| `ReceiverDecisions.IngestOneExactly` | reference/coredrp_ref/storage.py:105-113 | A replay passes if and only if it is the stored event with the stored hash; a new event if and only if it is valid, next, in order and of a new relay id; each failure has its code. |
| `ReceiverDecisions.IngestRefusals` | reference/coredrp_ref/storage.py:87-104 | Which code refuses a batch over the limits, with a wrong first number, an invalid event, on a fenced session, past a gap, or with a wrong terminal hash. |
| `Storage.Session.Connect` | reference/coredrp_ref/storage.py:54-83 | Takes the stream over under the next owner generation, or refuses without a change. |
| `Storage.Session.IngestBatch` | reference/coredrp_ref/storage.py:85-119 | Commits the batch whole, as Receiver.Ingest says, or refuses it and changes nothing. |
| `Storage.Session.WriteRows` | reference/coredrp_ref/storage.py:105-116 | Row-by-row writing inside the transaction equals the specification, and a refusal in the middle restores the tables. |
| `Storage.Session.Prepare` | reference/coredrp_ref/storage.py:101-103 | The chain hashes of consecutive events, or nothing when numbers are not consecutive. |
| `Drain.SelectBatch` | reference/coredrp_ref/transport.py:119-123 | The longest prefix that fits limits and credit; or the first event too large for any batch, reached with room before it. |
| `Drain.NextToSend` | reference/coredrp_ref/transport.py:118-127 | What is sent is the longest fitting piece of unacknowledged events, with its first sequence and terminal hash. |
| `Drain.DrainLog` | reference/coredrp_ref/transport.py:105-138 | Every batch sent is the next piece of the log within the limits; success means all unacknowledged events were sent, in order, each once, and the whole log is acknowledged; each batch is the longest under the credit in force and is acknowledged before the next; an accepted greeting, no I/O faults and an honest receiver's frames make it succeed. Without faults it fails only for an offer or greeting that is refused, a lost connection, a frame that is not acceptable, or an event that fits no batch, each with its code. |
| `Drain.SentWithin` | reference/coredrp_ref/transport.py:109-126 | A batch sent is within the receiver's offer, the sender's own maxima and the credit in force when it was sent, and no longer batch is. |
| `Drain.AnswersExist` | reference/coredrp_ref/transport.py:117-138 | Under the offer the receiver makes, a valid log always has such frames: one acknowledgement for each longest batch, to the end of the log. |
| `Drain.DeliveredInOrder` | reference/coredrp_ref/transport.py:119-127 | Consecutive batches concatenate to exactly the events between the committed and the reached position. |
| `Drain.HonestSelection` | reference/coredrp_ref/transport.py:109-126 | With the limits and credit the receiver offers, an honest log always yields a batch of at least one event, within the receiver's own admission limits. |
| `Binary64Theorems.CorrectRounding` | tools/financial_semantics.py:36-53 | The rounded pattern decodes to a nearest number of the format, and among equally near ones has an even pattern; subnormals included. |
| `Binary64Theorems.AcceptanceRange` | tools/financial_semantics.py:37-45 | Rounding succeeds exactly above half the least subnormal and below the overflow midpoint. |
| `Binary64Theorems.AcceptanceBinary64` | tools/financial_semantics.py:36-45 | For binary64 the range is 2^-1075 < x < 2^1024 - 2^970. |
| `Binary64Theorems.Retraction` | tools/financial_semantics.py:24-53 | Rounding the value of a positive finite pattern gives that pattern back. |
| `Binary64Theorems.RoundMonotone` | tools/financial_semantics.py:36-53 | x <= y implies that the patterns are in that order. |
| `Binary64Theorems.RoundOfEqual` | tools/financial_semantics.py:36-53 | The result depends on the number only, not on the fraction that represents it. |
| `Binary64Rounding.DecodeIsUnits` | tools/financial_semantics.py:24-34 | A pattern decodes exactly when it is positive and finite, to its number of least-subnormal units. |
| `Decimal.DecimalAccepts` | tools/financial_semantics.py:9-14 | The parser accepts exactly the canonical decimals. |
| `Decimal.AmountTruncates` | tools/financial_semantics.py:16-22 | Printing succeeds exactly for 0 <= x < 10^14, and what it prints reads as x cut off after 24 places. |
| `Decimal.AmountBounds` | tools/financial_semantics.py:16-22 | The printed amount is at most x and less than one unit of the last place below it. |
| `Decimal.DecimalRoundTrip` | tools/financial_semantics.py:9-22 | Printing the number a canonical string names gives that string, so a number has one canonical string. |
| `Decimal.DigitCountRedundant` | tools/financial_semantics.py:12 | The separate limit of 38 digits never refuses what the pattern accepts. |
| `Window.SelectWindow` | tools/financial_semantics.py:58-75 | For every page size and input order, the paginated selection gives the one-pass result or the one-pass failure. |
| `Window.ScoreIsNearest` | tools/financial_semantics.py:69 | A score exists exactly when both difficulties are positive binary64 numbers with a representable quotient, and is the nearest binary64 number to it. |
| `Window.ScoreOfQuotient` | tools/financial_semantics.py:69 | For any fraction q that is the quotient of the two decoded difficulties: the score exists if and only if q is in the range of binary64, and is the value of a pattern correctly rounded from q. |
| `Window.KeyOrder` | tools/financial_semantics.py:55-61 | The order of rows is the order of the fixed-width octets of time, sender, sequence and relay id. |
| `Window.SelectionExactly` | tools/financial_semantics.py:58-75 | A selection fails exactly for a factor that is not canonical or not positive, equal keys, equal accounting identities, or a scoreless row reached before the factor, in this order. |
| `Window.WindowContents` | tools/financial_semantics.py:61-75 | The selection takes the newest rows in descending key order, whole except possibly the last; contributions reach the factor or all rows are taken; without the last row they stay below it. |
| `Window.WindowSum` | tools/financial_semantics.py:64-74 | Contributions sum to the smaller of the factor and the sum of all scores. |
| `Window.ScanFails` | tools/financial_semantics.py:65-74 | The scan fails exactly when it reaches a row without a score before the factor is reached. |
| `Window.WindowOrderFree` | tools/financial_semantics.py:58-75 | Reordering the rows changes neither the selection nor which failure is reported. |
| `Allocation.Conservation` | tools/financial_semantics.py:159-169 | Printed amounts plus dust equal the reward exactly, and the dust is less than 10^-24 for each identity paid. |
| `Allocation.AlwaysSucceeds` | tools/financial_semantics.py:159-169 | Positive contributions of distinct identities, canonical reward and percentage below 100 with a finder when it is not zero: allocation succeeds. |
| `Allocation.AllocatesExactly` | tools/financial_semantics.py:159-169 | For contributions that are not negative: success if and only if identities are distinct, reward and percentage canonical, the percentage below 100 and with a finder unless zero, and some contribution positive; each failure has its reason. |
| `Allocation.PaidParts` | tools/financial_semantics.py:165-167 | Each amount is that identity's exact rational part, finder bonus included, cut off once. |
| `Allocation.AllocateOrderFree` | tools/financial_semantics.py:159-169 | Reordering the selection changes neither success nor amounts nor dust. |
| `WithdrawalProtocol.WithdrawalSafety` | tools/financial_semantics.py:189-223 | After a committed transition (g, T), in every later state no sender that staged it has an admission into the scope at or past T under older evidence, earlier or later; every required sender staged it, and every no-relay admission there is of a required sender. |
| `WithdrawalExact.ExactlyWhenSafe` | tools/financial_semantics.py:95-113 | From any state, over all continuations: a sender never again admits into the scope at or past T under evidence older than g if and only if it holds a cap of generation at least g and boundary at most T, or its history is unknown. |
| `WithdrawalExact.WithdrawnExactly` | tools/financial_semantics.py:189-223 | In any reachable state the withdrawal holds for all senders, past and future, if and only if each of them staged it, or is stopped by another cap or an unknown history and has not yet admitted past it under older evidence. |
| `WithdrawalExact.RequiredAreStopped` | tools/financial_semantics.py:195-223 | After the commit every required sender is safe in all continuations, and has not violated the boundary before. |
| `WithdrawalProtocol.CommitRequires` | tools/financial_semantics.py:215-223 | Commit succeeds only when every member and every no-relay holder has staged exactly this boundary and nothing committed crosses it. |
| `WithdrawalProtocol.NextInv` | tools/financial_semantics.py:95-223 | Every step - issuing, late delivery, admission, pruning, forgetting history, staging, acknowledging, committing - keeps the invariant. |
| `WithdrawalExact.FormerMemberEscapes` | tools/financial_semantics.py:195-223 | The required set need not cover every sender with older evidence: a run in which a former member admits past the boundary under its old relay-required evidence. |
| `WithdrawalNodes.Sender.Admit` | tools/financial_semantics.py:95-113 | A retry returns the recorded sequence; otherwise all scopes are checked, caps before coverage, before anything changes. |
| `WithdrawalNodes.Sender.CheckEvidence` | tools/financial_semantics.py:97-105 | The loop over scopes fails exactly where the first scope without usable, uncapped, covering evidence fails. |
| `WithdrawalNodes.Sender.StageWithdrawal` | tools/financial_semantics.py:200-208 | The cap is recorded whatever the outcome; success exactly when history is known and stays below the boundary. |
| `WithdrawalAdmissions.AdmissionsHaveEvidence` | tools/financial_semantics.py:95-113 | In every reachable state each admission was made under evidence delivered to that sender for that scope that was activated, authorized and contracted, covered the admission's time, and had a known mode, with membership when relay was required. |
| `WithdrawalAdmissions.AdmitsExactly` | tools/financial_semantics.py:96-107 | A new request is admitted if and only if history is known and for every scope the sender holds such evidence, not withdrawn by a cap. |
| `WithdrawalAdmissions.AdmitStepExactly` | tools/financial_semantics.py:95-113 | In the protocol such a step admits the request once for each scope under the next number; otherwise nothing changes. |
| `WithdrawalAdmissions.RefusalExactly` | tools/financial_semantics.py:97-106 | The first scope that cannot be used decides the refusal; unknown history comes last. |
| `WithdrawalAdmissions.ScopeRefusals` | tools/financial_semantics.py:99-105 | What the evidence for a scope lacks first decides its reason. |
| `WithdrawalAdmissions.RequestsHaveOwnNumbers` | tools/financial_semantics.py:107-113 | In every reachable state each admitted request has its own number, and the numbers are one to their count. |
| `WithdrawalAdmissions.StageExactly` | tools/financial_semantics.py:200-208 | In every reachable state staging succeeds if and only if history is known, the boundary is not negative, and no admission of that sender into the scope is at or past it, pruned or not. |
| `WithdrawalAdmissions.StagedForGood` | tools/financial_semantics.py:200-208 | Whatever staging answers, the sender never again admits into the scope at or past the boundary under older evidence, in any continuation. |
| `WithdrawalAdmissions.StagingCaps` | tools/financial_semantics.py:200-208 | Staging adds exactly the one cap and changes nothing else; success answers the generation and digest it was asked for. |
| `WithdrawalAdmissions.IssueExactly` | tools/financial_semantics.py:189-194 | Issuing adds the holder with the largest skew it was ever issued with, exactly while no transition is pending and relay is not required. |
| `WithdrawalAdmissions.PrepareExactly` | tools/financial_semantics.py:195-198 | A transition can be prepared exactly when none is pending and it has members; it requires the members and the holders. |
| `WithdrawalAdmissions.AcknowledgeExactly` | tools/financial_semantics.py:210-213 | An acknowledgement counts exactly when it is from a required sender and for exactly the pending generation and digest. |
| `WithdrawalAdmissions.CommitExactly` | tools/financial_semantics.py:215-223 | In every reachable state a commit succeeds if and only if exactly the members and holders have acknowledged, the committed history is known, and nothing in it crosses the boundary. |
| `WithdrawalNodes.Receiver.Commit` | tools/financial_semantics.py:215-223 | Switches the mode and clears the transition exactly when its three conditions hold; otherwise changes nothing. |
| `Encoding.PrefixFree` | tools/request_encodings.py:20-43 | For every schema table and kind: no encoding is a prefix of another, and equal encodings are of equal values up to the order of arrays. |
| `Encoding.EncodePrefixFree` | tools/request_encodings.py:15-18 | The same for whole records. |
| `Encoding.OrderFree` | tools/request_encodings.py:22-29 | Values that differ only in the order of arrays have the same encoding, or are refused alike; commitments included, which are ordered by index. |
| `Encoding.EncodingCanonical` | tools/request_encodings.py:15-43 | Encodings are equal if and only if the values are equal up to the order of arrays. |
| `EncodingTypes.ValueExactly` | tools/request_encodings.py:20-43 | A value has an encoding if and only if it is well typed for its kind, field by field and item by item; and its length. |
| `EncodingTypes.ArrayLayout` | tools/request_encodings.py:22-29 | An encoded array is its count and its records, each after its length, in ascending order of their octets, commitments in ascending order of their distinct indices. |
| `ByteOrder.FirstDifference` | tools/request_encodings.py:28 | The order of octet strings: a proper prefix comes first, otherwise the first octet that differs decides. |
| `EncodingTypes.ValueReads` | tools/request_encodings.py:30-43 | How the octets of single values read back: integers from the most significant octet, two's complement, absence and presence, lengths. |
| `Requests.AdmissionUnambiguous` | tools/request_encodings.py:45-48 | Equal admission octets mean the same lane, event type, scope, record type and request. |
| `RequestDecisions.AdmissionExactly` | tools/request_encodings.py:45-48 | A request has admission octets if and only if its event type, lane and record type belong together, its scope is ASCII of at most 65535 octets, and it is a well-typed record of writable length. |
| `RequestDecisions.AdmissionReads` | tools/request_encodings.py:45-48 | How those octets read back: tag, lane, event type, scope after its length, encoded request after its length. |
| `Requests.GroupUnambiguous` | tools/request_encodings.py:50-52 | Equal group preimages mean the same accounting identity, request, event time and payload hash. |
| `RequestDecisions.GroupExactly` | tools/request_encodings.py:50-52 | A group has a digest if and only if its accounting identity is 16 octets and not all zero, its request well typed, its time of 64 bits, and its payload of writable length. |
| `RequestDecisions.GroupReads` | tools/request_encodings.py:50-52 | How the hashed octets read back: version one, identity, encoded request after its length, time in two's complement, and the payload hash that the event's chain hash also contains. |
| `Requests.EffectsOnce` | tools/request_encodings.py:54-61 | In any history of submissions the effects of a key are committed at most once, and afterwards exactly the committed group is a replay. |
| `Requests.Ledger.AcceptGroup` | tools/request_encodings.py:54-61 | The ledger changes only for a new, well-formed key. |
| `Requests.SubmissionExactly` | tools/request_encodings.py:54-61 | In any history submission i commits if and only if its key is 16 octets and not all zero, its digest 32 octets, and no earlier well-formed submission has its key; it is a replay if and only if the first of these is the same group. |
| `AdminBody.ValidIffPrinted` | tools/request_encodings.py:68-93 | The validator accepts octets if and only if they are the printed form of some well-typed field list. |
| `AdminBody.FieldsUnique` | tools/request_encodings.py:68-76 | That field list is unique. |
| `AdminBody.ValidateAdminBody` | tools/request_encodings.py:78-93 | The cursor loop accepts and fails exactly as the specification does, with the same reason. |
| `Merkle.MerkleRoot` | tools/verify_profile_vectors.py:134-140 | The level-by-level loop computes the root, and zeros for no leaves. |
| `Merkle.RootDeterminesList` | tools/verify_profile_vectors.py:160-161 | Two duplicate-free lists of any lengths with one root are equal, unless hashed pairs collide or a leaf is such a hash. |
| `Merkle.RepeatedLast` | tools/verify_profile_vectors.py:160-161 | Without the duplicate check this fails: repeating the last of an odd number of leaves keeps the root. |
| `Merkle.RootIsTopDown` | tools/verify_profile_vectors.py:134-140 | Computed level by level, the root is that of the tree defined from the top: split at the largest power of two below the number of leaves, where a missing right subtree is replaced by the left one. |
| `Candidate.CheckOutputs` | tools/verify_profile_vectors.py:171-187 | Accepts exactly when the gross reward is the sum of all outputs, commitments are declared one for one, and declared, miner and recipient outputs together are the outputs, as multisets. |
| `Candidate.CheckDeclared` | tools/verify_profile_vectors.py:173-182 | Declared commitments have distinct indices and name zero-valued commitment outputs, and every commitment output is declared. |
| `Candidate.ConsumeAll` | tools/verify_profile_vectors.py:183-187 | Removing expected outputs one by one leaves nothing exactly when the two lists are rearrangements. |
| `Candidate.GrossIsPaid` | tools/verify_profile_vectors.py:171-187 | Accepted outputs pay the gross reward to the miner and the recipients only. |
| `Carry.FirstInconsistent` | reference/coredrp_ref/miningcore_shadow.py:142-155 | Reports a history exactly when no opening remainder in [0, 10^-12) keeps every prefix remainder in range, at the first such prefix. |
| `Carry.HonestNeverReported` | reference/coredrp_ref/miningcore_shadow.py:131-155 | A truncate-to-twelve-places-and-carry history gets neither this finding nor the floor/ceiling finding. |
| `Carry.FeasibleIsHonest` | reference/coredrp_ref/miningcore_shadow.py:142-145 | A history without the finding, paid in whole twelve-place units, is that of some truncate-and-carry payer. |
| `Carry.PlausibleExactly` | reference/coredrp_ref/miningcore_shadow.py:131-141 | A payment passes the floor-and-ceiling check if and only if some carried remainder in [0, 10^-12) explains it. |
| `Audit.GrossConserved` | tools/audit_evidence.py:16-52 | In an accepted settlement the gross reward equals deductions plus amounts plus dust exactly. |
| `Audit.AcceptedEvents` | tools/audit_evidence.py:23-49 | Acceptance means every event is intact and none occurs twice, the rows are those of all projections in scope, identities are distinct, the finder is linked, and the payments are the allocation of the chosen shares. |
| `Audit.RowsAre` | tools/audit_evidence.py:24-41 | A row is gathered exactly for each in-scope projection of an event, and all events pass the integrity check. |
| `Audit.AuditOrderFree` | tools/audit_evidence.py:16-52 | Rearranging events or deductions changes neither acceptance nor amounts, dust or digest, in every scheme. |
| `Audit.Gather` | tools/audit_evidence.py:23-41 | The loop over events, watching for repeated keys and identities, gives the specified rows, or rejects exactly when an event or identity occurs twice or a row cannot be made. |
| `AuditDecisions.SettleExactly` | tools/audit_evidence.py:16-52 | A bundle settles if and only if named distinct deductions make up gross minus distributable reward, the finder's percentage is bound, every event is intact, parses, carries its time and occurs once, accounts are distinct, shares can be weighed, the finder is linked by exactly one row in scheme 2 and absent otherwise, and the bundle has an encoding. |
| `AuditDecisions.SettledLists` | tools/audit_evidence.py:34-50 | An accepted settlement lists exactly its payments, each with the miner of the row that its account belongs to. |
| `AuditDecisions.WeighsExactly` | tools/audit_evidence.py:42-44 | In scheme 3 every row counts with its whole score; otherwise the rows are those of the window. |
| `AuditDecisions.RowExactly` | tools/audit_evidence.py:32-41 | A row holds the event's key, the projection's account, miner and network difficulty, the adjusted difficulty, and whether it is the block's finder. |
| `AuditDecisions.AdjustedExactly` | tools/audit_evidence.py:38 | For any fraction q that is the product of difficulty and adjustment: the adjusted difficulty exists if and only if q is in the range of binary64, and is correctly rounded from q. |
| `AuditDecisions.PreimageIsRelays` | tools/audit_evidence.py:12-14 | The audit hashes an event of the relay's lane over exactly the octets that the relay hashes. |
| `AuditDecisions.PreimageDetermines` | tools/audit_evidence.py:12-14 | The hashed octets determine every field of the event and the payload's hash. |
| `RetainedBundles.RetainedIsUnique` | tools/audit_evidence.py:55-59 | Two bundles that pass under one recorded digest are the same up to the order of events and deductions and give the same settlement, unless their encodings collide. |
| `RetainedBundles.RetainedExactly` | tools/audit_evidence.py:55-59 | A retained bundle passes if and only if it settles, to the expected table and the recorded digest, and names the recorded summary. |
| `CoreModel.AlwaysSafe` | model/CoreDRP.tla:167-193 | All seventeen configured invariants hold in every reachable state, for every bound of at least one. |
| `CoreModel.NextInv` | model/CoreDRP.tla:165 | Every action keeps the strengthened invariant. |
| `CoreModel.MarksOrdered` | model/CoreDRP.tla:137-146 | Prune mark <= payout mark <= checkpoint floor <= last event time in every reachable state; and the guard that would freeze the current epoch is never in force. |
| `CoreModel.WaivedFreezesPayout` | model/CoreDRP.tla:132-142 | Once a gap is waived, the payout mark never changes again. |
| `CoreModel.OpenGapStopsPayout` | model/CoreDRP.tla:127-142 | While a gap is open the payout mark stands still, until a step reconciles or waives the gap. |
| `CoreModel.PayoutMonotone` | model/CoreDRP.tla:137-146 | Payout and prune marks never move back. |
| `CoreProgress.PayoutCatchesUp` | model/CoreDRP.tla:48-146 | From every reachable state that is not blocked, has no fault pending and no waived gap, and has a checkpoint or room for one, some continuation pays out and prunes everything up to the newest checkpoint. |
| `CoreProgress.CanPayExactly` | model/CoreDRP.tla:132-142 | In a reachable state that is not blocked, has no fault pending and has room in the log, some continuation pays out more if and only if no gap was waived. |
| `CoreProgress.AlwaysKept` | model/CoreDRP.tla:48-64 | In every reachable state the committed floor is that of the newest checkpoint once the receiver has committed it. |

## Left out

- gRPC, TLS, certificates, the command line, PostgreSQL text and POSIX locks: I/O and foreign libraries. The receiver's
  advisory lock is left out as well, so the model allows takeovers that the lock would refuse.
- JSON, protobuf and UTF-8 octets: parameters. Octet strings written as hexadecimal text, and difficulties written as
  hexadecimal, are modelled by the octets and patterns they stand for, so spelling variants of one value are one value.
- Checks of a hello or greeting that compare protocol versions, binding digests and profile lists: each is one Boolean.
- Bootstrap, `recovery.sync`, fault injection, and the paused and test behaviour of the receiver: error mapping and hooks.
- Heartbeats are modelled only as the control exchange that precedes data; goodbyes are left out.
- Byte parsing of blocks and transactions, the witness commitment and the block height script: the checks start from the
  list of transaction ids and the coinbase outputs.
- PPS liability, participant and effect digests, scope names, policy sources: single expressions with range checks.
- Export, report text, grouping of credits by recipient and the other findings of shadow comparison: the carry check
  starts from one recipient's credits in order.
- Decision tables such as reconnect, bootstrap and clock update: finite case matching.
- Explicit abortion of a prepared transition: the design text mentions it, the code has no such operation.
- Liveness under real networks, hardware power loss and Byzantine peers: outside what the code decides.
- Audit.Settle: rejection is one outcome, because the program's different messages depend on the order of its checks.
- Encoding.Value: a kind name that is neither a built-in kind nor a record type is refused like any unknown record.
