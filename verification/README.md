# Verification of the order-safety substrate

A Dafny model of the parts of the trading library that keep durable state, recover from crashes, or
carry an argument other modules rest on, with proofs of what they promise. `dafny verify
dfyconfig.toml` checks the whole project.

| Concern | Modules |
|---|---|
| Text and hashing | `Utf8`, `JsonLine`, `LineFormat`, `JsonFormat`, `Sha256`, `Sha256Words`, `Hashing` |
| Write-ahead intent log | `IntentRecord`, `IntentLog` |
| Tamper-evident ledger | `LedgerEntry`, `Ledger`, `LedgerEvidence` |
| Exactly-once dispatch | `Signature`, `ClientRef`, `DispatchProtocol`, `Dispatcher` |
| Broker truth | `Domain`, `Lifecycle`, `Reconciler`, `Recovery` |
| Option baskets and slices | `BasketGraph`, `Basket`, `FreezeSlicer`, `ValidationGate`, `SlicedLeg` |
| One download for many processes | `RefdataCache`, `LockPayload` |
| Secrets and provenance | `Secrets`, `Redaction`, `SecretsHidden`, `Provenance`, `Uuid` |
| Arithmetic | `StrategyBook`, `RateLimiter`, `Money` |

## How the model reads the code

Code that changes state step by step is a class or a method with loops, specified by a function or a
relation about which the theorems are then stated. Protocols (dispatch across crashes, the ledger's
runs, the processes around one lock file) are state machines, and the theorems are about every run.

Files are byte sequences; a byte is a `char`, and a `char` above 255 is treated like one of the bytes
0xF5 to 0xFF, which occur in no well-formed text. What the surroundings do (a failing write or sync
and how many bytes it leaves, the store, the clock, the broker's answer, random words) is a
parameter. Integers are unbounded except in `Money`, the bit counter of `Sha256` and the process id of
`LockPayload`, where the width matters and is written out. Where a property needs a digest without
collisions, it is assumed only of the pre-images at hand; `Hashing.Sha256IsUsable` discharges
everything else the log, the ledger and the dispatcher ask of their digest.

Where a method is specified by a function of the model, the theorems pin that function in terms of its
own: `Secrets` says what a secret is without the scrubber's scan, `StrategyBook.FillSays`,
`Lifecycle.TakenFrom`, `Reconciler.RowLands` and the lemmas named `...Says` write the result out case by
case, and `Sha256Words` derives the constants.

Results that are not what one would expect from the documentation, each with the exact condition:

- A failed append that leaves bytes in the intent log is survivable until the same process appends
  again (`IntentLog.ReplayableIffNothingBehindResidue`).
- Two different signals share a signature text if a separator and tag are moved across the boundary
  of strategy and symbol, and only then (`Signature.SignatureInputEqualIff`).
- A refused broker view is not counted if the key recorded for the order is newer than the snapshot,
  or as new while the order lives (`Reconciler.RefusalIsCountedIff`). An unblocked snapshot agrees with
  every row if and only if no recorded key silences one in this way
  (`Reconciler.DivergenceIsSilentIff`, `Recovery.ResumedSafeMeansAgreement`). Recovery always uses key
  1, so a second recovery on the same engine can resume over a row it refuses
  (`Recovery.SecondRecoveryHidesRefusal`).
- Behind a failed unwind the basket goes on unwinding, so a leg can stay live without its hedge
  (`Basket.UnwindGoesOnPastFailure`): exactly if the unwind of a leg it depends on works and its own
  does not (`Basket.UnwindIsSafeIff`, `Basket.ResultIsSafeIff`).
- The counters of a recovery add up to the Unknown orders there were if and only if the broker makes
  no more orders Unknown than it resolves (`Recovery.ResolvedAddsUpIff`).
- The single-download guarantee holds if and only if reads do not fail and the validator refuses the
  empty text; a validator that is not set accepts it (`RefdataCache.OneDownloadIff`).
- The text form of a lock file drops one trailing carriage return of a value, so exactly the payloads
  without one round-trip (`LockPayload.RoundTripIff`).
- The head hash commits to the ledger only together with the number of entries
  (`LedgerEvidence.HeadHashFixesLedger`, `LedgerEvidence.LengthIsNotHashed`), and that number is not under
  the signature of a checkpoint. Under the number it was made with, a checkpoint is reached by exactly the
  ledgers that still begin with its entries (`LedgerEvidence.CheckpointHoldsIff`); under a smaller one, by
  exactly those that splice its payloads (`LedgerEvidence.CheckpointUnderOtherSizeIff`).
- `Reconciled` is entered from `Unknown` and from `ManualInterventionRequired` alone
  (`Lifecycle.ViewIsTakenIff`), although the comment above the table also names the live states.
- Squaring off does not book profit or loss, as the code says; cash conservation is therefore stated
  for runs of fills.

## Model

| member | source | states |
|---|---|---|
| `Utf8.CanonicalText` | src/domain/utf8.cpp:60-104 | the index loop computes the canonical text |
| `Utf8.DecodeMeetsUnicode` | src/domain/utf8.cpp:24-104 | at every offset the scan takes exactly the encoding of a scalar value that starts there, or else exactly the maximal subpart, which becomes one U+FFFD |
| `Utf8.CanonicalIsWellFormed` | src/domain/utf8.cpp:60-104 | the output is well-formed UTF-8 for any input bytes |
| `Utf8.CanonicalIdentityIffWellFormed` | src/domain/utf8.cpp:60-104 | exactly the well-formed texts are returned byte for byte |
| `Utf8.CanonicalIdempotent` | src/domain/utf8.cpp:60-104 | canonicalising twice changes nothing |
| `Utf8.CanonicalAfterWellFormed` | src/domain/utf8.cpp:60-104 | canonicalisation distributes over concatenation behind a well-formed prefix |
| `Utf8.AsciiPreserved` | src/domain/utf8.cpp:60-104 | the subsequence of ASCII bytes is unchanged |
| `Utf8.AsciiSeparates` | src/domain/utf8.cpp:60-104 | what stands before an ASCII byte and what stands behind it are canonicalised independently |
| `Utf8.NeverShrinks` | src/domain/utf8.cpp:60-104 | the text never gets shorter, so a non-empty text stays non-empty |
| `Utf8.EncodingIsUnambiguous` | src/domain/utf8.cpp:24-58 | two sequences of scalar values with one encoding are equal |
| `JsonLine.RoundTrip` | src/intentlog/intent_log.cpp:131-160 | any printed object is read back as itself with its strings canonicalised |
| `JsonLine.StrictPrefixUnreadable` | src/intentlog/intent_log.cpp:394-436 | no strict prefix of a printed line is readable, so a torn line is never mistaken for a record |
| `JsonLine.TornThenGlued` | src/ledger/ledger.cpp:261-272 | a torn object with a whole one appended to it is unreadable |
| `JsonLine.PrintIsCanonical` | src/idempotency/idempotency.cpp:136-152 | the printed text is valid UTF-8 whatever bytes the strings hold, so canonicalising it again is a no-op |
| `IntentRecord.CanonicalBytesInjective` | src/intentlog/intent_log.cpp:93-129 | records with equal hash pre-images agree in every hashed field |
| `JsonFormat.LinesLawful` | src/ledger/ledger.cpp:251-272 | records written as one JSON object per line have the laws the file reasoning rests on: one line that reads back, no readable strict prefix, no readable splice |
| `IntentRecord.StoredIsFaithful` | src/intentlog/intent_log.cpp:131-160 | a stored record is written unchanged and read back as itself, field by field |
| `LedgerEntry.StoredIsFaithful` | src/ledger/ledger.cpp:251-259 | so is a stored ledger entry |
| `IntentLog.CutJsonLogReplays` | src/intentlog/intent_log.cpp:347-532 | a log cut at any byte of its last line replays to every completed record in order, and to the last one exactly if only its newline was lost; the repaired file is exactly the lines of what was returned |
| `IntentLog.RepairIsStable` | src/intentlog/intent_log.cpp:408-520 | on any file that replays at all, replaying the repaired file gives the same records and nothing to repair |
| `IntentLog.EveryRunReplays` | src/intentlog/intent_log.cpp:291-532 | no sequence of appends, crashes and boots, some of which die inside their own repair, leaves a log that cannot be replayed, or loses a record that was there before or whose append had returned in any of the lives |
| `IntentLog.ReplayableIffNothingBehindResidue` | src/intentlog/intent_log.cpp:291-345 | behind a failed append that left bytes, the log replays if and only if nothing was left or nothing was appended |
| `IntentLog.BootsOnlyMoveCut` | src/intentlog/intent_log.cpp:420-520 | however many boots die before their repair is durable, the file is one that a crash could have left, with the same records |
| `IntentLog.LastHashFixesLog` | src/intentlog/intent_log.cpp:455-500 | two accepted logs that end in one hash are the same log, unless their own records exhibit a collision |
| `IntentLog.JsonLayoutUsable` | src/intentlog/intent_log.cpp:291-333 | whatever bytes the caller hands over, the record an append builds can be stored and continues the chain |
| `IntentLog.Log.Append` | src/intentlog/intent_log.cpp:291-345 | a successful append adds exactly one line and advances number, hash and index; a failed one changes nothing but the bytes it left |
| `IntentLog.Log.ReadRecords` | src/intentlog/intent_log.cpp:380-505 | the cursor loop over the bytes computes the specified scan and indexes every record it accepts |
| `IntentLog.Log.Replay` | src/intentlog/intent_log.cpp:347-532 | replay with its repairs: state and file for an absent file, one that cannot be opened, success, a fatal line and a repair that fails |
| `IntentLog.Log.LastFor` | src/intentlog/intent_log.cpp:534-549 | the latest of the log's records that has the canonical ref, and nothing exactly if none has |
| `IntentLog.IndexHoldsLatest` | src/intentlog/intent_log.cpp:455-506 | indexing records one after another keeps the latest of every ref |
| `IntentLog.Boot` | src/intentlog/intent_log.cpp:248-532 | replaying the bytes a crash and any dying boots left yields a log object that holds every completed record and can be appended to |
| `Ledger.AppendIsAllOrNothing` | src/ledger/ledger.cpp:347-520 | an append writes its entry, whose number, previous hash, payload and hash are stated, or leaves the file as it was, or seals the ledger; a sealed ledger writes nothing |
| `Ledger.AppendOutcomeIff` | src/ledger/ledger.cpp:447-517 | exactly when an append succeeds, and exactly when it seals |
| `Ledger.EveryJsonRunLoads` | src/ledger/ledger.cpp:347-628 | over every run of appends with failing steps, crashes and reloads: load never fails, everything reported written is loaded at its place, in the order reported, and the chain verifies; a truncation that was not made durable may be undone by a crash |
| `Ledger.Ledger.Append` | src/ledger/ledger.cpp:347-520 | the method does exactly the specified step, for every combination of failing measurement, open, write, sync, close and rollback |
| `Ledger.Ledger.RestoreToSize` | src/ledger/ledger.cpp:305-333 | the rollback reports success exactly if the file is provably back at its size, and never extends a file that has shrunk |
| `Ledger.Ledger.Load` | src/ledger/ledger.cpp:564-628 | the loop loads the file and forgives only its last non-empty line |
| `Ledger.Ledger.VerifyChain` | src/ledger/ledger.cpp:522-562 | accepts exactly the chains whose every entry links, and otherwise names the first entry that does not |
| `Ledger.Ledger.MakeCheckpoint` | src/ledger/ledger.cpp:785-799 | the head hash and the number of entries, with the head hash signed; nothing exactly for an empty ledger |
| `Ledger.Ledger.VerifyAgainstCheckpoint` | src/ledger/ledger.cpp:832-927 | passes exactly without a checkpoint, or with one under the pinned key, validly signed, whose head the ledger has at its number; and which failure is reported when |
| `LedgerEvidence.HeadHashFixesLedger` | src/ledger/ledger.cpp:436-445 | two verified ledgers of one length have one head hash exactly if they are the same, unless their own hashed texts collide |
| `LedgerEvidence.HeadHashSameIff` | src/ledger/ledger.cpp:436-445 | exactly when verified ledgers of any lengths have one head hash |
| `LedgerEvidence.LengthIsNotHashed` | src/ledger/ledger.cpp:442-445 | every verified ledger of two entries or more shares its head hash with a verified one of a single entry |
| `LedgerEvidence.EditIsSeen` | src/ledger/ledger.cpp:522-562 | a changed payload goes unseen exactly if its digest is the same; otherwise the chain is broken at that entry and at no other |
| `LedgerEvidence.CheckpointHoldsIff` | src/ledger/ledger.cpp:908-926 | a checkpoint is reached by exactly the verified ledgers that begin with the signed entries: truncation and rewriting are seen, growth is fine |
| `LedgerEvidence.CheckpointUnderOtherSizeIff` | src/ledger/ledger.cpp:799-802 | exactly which ledgers reach the same signed head under a smaller number |
| `Sha256.HashPieces` | src/intentlog/sha256.cpp:90-142 | however a message is split into updates, the hex text is the fold of the compression function over the padded message (sections 5.1.1 and 6.2.2 of FIPS 180-4) |
| `Sha256.Hasher.Transform` | src/intentlog/sha256.cpp:39-88 | the schedule loop and the round loop compute the compression of the block into the state |
| `Sha256.Hasher.Push` | src/intentlog/sha256.cpp:90-100 | the buffer always holds the bytes behind the last whole block, and the state the hash of what is before |
| `Sha256.Hasher.PushZeros` | src/intentlog/sha256.cpp:106-114 | the padding loop ends, with 56 bytes in the buffer and the number of zeros the standard prescribes |
| `Sha256.Hasher.Hex` | src/intentlog/sha256.cpp:106-142 | the digest is that of the whole message, the bit counter wrapping modulo 2^64 |
| `Sha256.PaddedInjective` | src/intentlog/sha256.cpp:106-131 | below 2^61 bytes different messages have different padded messages |
| `Sha256.BigEndianAt` | src/intentlog/sha256.cpp:116-119 | the shifts and masks produce the big-endian bytes of the length |
| `Sha256Words.RoundConstantsAreCubeRoots` | src/intentlog/sha256.cpp:14-24 | each round constant is the first 32 bits of the fraction of the cube root of its prime, as an integer inequality (section 4.2.2 of FIPS 180-4) |
| `Sha256Words.InitialIsSquareRoots` | src/intentlog/sha256.cpp:33-34 | the initial hash value comes from the square roots of the first eight primes (section 5.3.3) |
| `Sha256Words.RotatedBit` | src/intentlog/sha256.cpp:26-28 | a rotation takes every bit from so many places higher |
| `Sha256Words.PackSays` | src/intentlog/sha256.cpp:40-46 | the first byte of a word is the highest |
| `Hashing.Sha256IsUsable` | src/intentlog/sha256.cpp:144-148 | SHA-256 meets everything the layouts of log and ledger, the ledger's evidence and the dispatcher's signing ask of a digest |
| `Signature.SignatureInputEqualIff` | src/idempotency/idempotency.cpp:44-97 | two intents have one signature text exactly if all order terms agree and strategy and symbol agree up to a separator-and-tag moved across their boundary |
| `Signature.SignatureInputUnambiguous` | src/idempotency/idempotency.cpp:24-97 | without a separator in the strategies or in the symbols, one text is one signal; the limit price of a stop-loss-market order plays no part |
| `Signature.SeparatorInStrategyCollides` | src/idempotency/idempotency.cpp:24-26 | two different signals with one signature text |
| `Signature.PayloadCarriesSignature` | src/idempotency/idempotency.cpp:112-153 | the payload of any intent is stored byte for byte and yields its signature on rebuild |
| `ClientRef.ParentOfChild` | src/idempotency/idempotency.cpp:167-187 | a child ref names its parent, whatever the parent looks like |
| `ClientRef.ChildRefsDistinct` | src/idempotency/idempotency.cpp:167-173 | children of different parents, or with different numbers, have different refs |
| `ClientRef.MintedRefsDistinct` | src/idempotency/idempotency.cpp:155-165 | two minted refs are equal exactly if strategy, signature part and UUID are |
| `ClientRef.ParentOfSays` | src/idempotency/idempotency.cpp:176-187 | a ref names the text before its last '#', exactly if there is text on both sides |
| `DispatchProtocol.AtMostOncePlacePerSignature` | src/runtime/dispatcher.cpp:156-272 | over every run with any failure and any crash: no signature is placed at the broker twice, every broker call has a durable record of its own written before it, and no ref believed unsent was sent |
| `DispatchProtocol.UnknownAnswerIsEnumerable` | src/runtime/dispatcher.cpp:167-193 | whenever a known signal is answered as possibly live without a row, its PlaceOrder record is in the log |
| `DispatchProtocol.HistoryOnlyGrows` | src/runtime/dispatcher.cpp:156-440 | no step removes or changes a durable record or takes back a broker call |
| `DispatchProtocol.RebuildFindsRecorded` | src/idempotency/idempotency.cpp:191-224 | the rebuilt index knows exactly the recorded signatures |
| `Dispatcher.NoSignalPlacedTwice` | src/runtime/dispatcher.cpp:156-272 | whatever happened to a dispatcher and the processes before it, no two orders at the broker are the same signal |
| `Dispatcher.SentIsRecorded` | src/runtime/dispatcher.cpp:203-228 | everything at the broker has its record in the bytes the next boot reads, under the sent ref and signature, also behind one failed append that left bytes |
| `Dispatcher.Dispatcher.Place` | src/runtime/dispatcher.cpp:156-272 | for every outcome of store, log and broker: what is returned, sent, stored, indexed, recorded as observed and remembered as unsent, as a run of protocol steps on the real log |
| `Dispatcher.Dispatcher.Reserve` | src/idempotency/idempotency.cpp:250-292 | a signal is bound to one ref, once, and what that means for the call |
| `Dispatcher.DecisionIff` | src/idempotency/idempotency.cpp:250-292 | exactly when a signal is sent, answered from its row, answered as possibly live, or not answered |
| `Dispatcher.Dispatcher.RecordAndSend` | src/runtime/dispatcher.cpp:203-229 | the broker is called only behind a durable record, and the ref leaves the unsent set before the call |
| `Dispatcher.Dispatcher.Modify` | src/runtime/dispatcher.cpp:275-339 | record, send, then the row: its state and broker id for every answer and failure |
| `Dispatcher.Dispatcher.Withdraw` | src/runtime/dispatcher.cpp:342-440 | cancel and square-off mark a live row Unknown exactly when the error asks for reconciliation or is a timeout, a network failure or unknown, and never touch a terminal one |
| `Dispatcher.PlacedRowSays` | src/runtime/dispatcher.cpp:231-260 | the whole placed row by the broker's answer, the error's action and category written out: Unknown exactly if the order may be live, Rejected on any other error, Acknowledged unless a newer observation is recorded |
| `Dispatcher.ModifiedRowSays` | src/runtime/dispatcher.cpp:287-338 | the whole row behind a modify, by answer and by state |
| `Dispatcher.RebuildIndex` | src/idempotency/idempotency.cpp:191-224 | the loop over the replayed records rebuilds the index, the earliest record of a signal winning |
| `Dispatcher.Restart` | src/runtime/dispatcher.cpp:156-272 | a crash anywhere inside any operation, at any byte of its record, or behind one failed append of which any bytes are left, then any boots that die inside their repair, and a boot from those bytes continue the same run |
| `Dispatcher.FirstBoot` | src/intentlog/intent_log.cpp:248-285 | a dispatcher over a log that does not exist yet starts a run |
| `Lifecycle.LifecycleEngine.Apply` | src/lifecycle/lifecycle.cpp:281-345 | terminal first, then the ordering key, then the table on the canonicalised state; order and recorded key afterwards |
| `Lifecycle.ViewIsTakenIff` | src/lifecycle/lifecycle.cpp:41-210 | from which states what a view says is taken over, target by target, what the order then is in every field, and that nothing changes otherwise |
| `Lifecycle.LifecycleEngine.ApplyChild` | src/lifecycle/lifecycle.cpp:347-365 | a child is filed under the parent its ref names, and the parent is the fold of all its children; every other parent keeps its children |
| `Lifecycle.FoldParentState` | src/lifecycle/lifecycle.cpp:223-279 | the flag loop depends only on the set of states, so not on the order in which a hash map yields them |
| `Lifecycle.FoldSays` | src/lifecycle/lifecycle.cpp:223-279 | what each parent state means about the children |
| `Lifecycle.ViewsAreAbsorbedInOrder` | src/lifecycle/lifecycle.cpp:281-345 | over any views a terminal order never changes and no recorded key goes down |
| `Lifecycle.OnlyForward` | src/lifecycle/lifecycle.cpp:41-131 | without exceptional views an order only moves forward, stale and contradictory views included |
| `Reconciler.DivergenceIsSilentIff` | src/reconcile/reconciler.cpp:99-281 | for any recorded keys: if a new snapshot, matching one to one, does not block, every row has an order that agrees with it if and only if no recorded key silences a row; every acknowledged working order is in it in any case |
| `Reconciler.AgreesAfterIff` | src/reconcile/reconciler.cpp:145-250 | exactly when an order agrees with its row afterwards |
| `Reconciler.NoSilentDivergence` | src/reconcile/reconciler.cpp:99-281 | if a new enough snapshot, matching one to one, does not block, every broker row has a local order with equal fill, price and canonicalised state, and every acknowledged working order is in the snapshot |
| `Reconciler.BlockedIff` | src/reconcile/reconciler.cpp:99-281 | for a new snapshot and any recorded keys: blocked exactly if some row has no order, or is refused under a key that lets it count, or some acknowledged working order is in no row |
| `Reconciler.RefusalIsCountedIff` | src/reconcile/reconciler.cpp:155-250 | a refused row is counted exactly if the recorded key is older, or equal for a terminal order |
| `Reconciler.EqualKeyHidesRefusal` | src/reconcile/reconciler.cpp:218-231 | at an equal key a working row without the fill known locally is neither applied nor counted |
| `Reconciler.TerminalsAreKept` | src/reconcile/reconciler.cpp:99-281 | whatever the snapshot: terminal orders and intents do not change, keys do not go down, a stale snapshot never blocks |
| `Reconciler.ReconcileApplier.Apply` | src/reconcile/reconciler.cpp:99-281 | the loops over rows and orders compute the specified orders, keys and counters, in place |
| `Reconciler.RowSays` | src/reconcile/reconciler.cpp:125-250 | what one row does to the order it finds, to the keys and to every counter, written out; a row without an order is counted against a new snapshot and does nothing else |
| `Reconciler.SnapshotSays` | src/reconcile/reconciler.cpp:252-281 | behind the rows a new snapshot counts each working order that is in no row, a stale one counts nothing, and any count blocks |
| `Reconciler.SameOrderIff` | src/reconcile/reconciler.cpp:17-25 | when a row is an order's: one client ref or one broker id, neither empty |
| `Reconciler.MatchIn` | src/reconcile/reconciler.cpp:17-25 | the first local order that is the row's, by ref or by broker id |
| `Recovery.ResumedSafeMeansAgreement` | src/reconcile/recovery.cpp:141-185 | for any recorded keys: resuming means no Unknown order and no acknowledged working order missing, and agreement with every broker row if and only if no recorded key silences one |
| `Recovery.FreshEngineResumesInAgreement` | src/reconcile/recovery.cpp:96-185 | with an engine that has recorded nothing as new as the snapshot, resuming means agreement |
| `Recovery.OutcomeIff` | src/reconcile/recovery.cpp:70-185 | exactly when each outcome is reached, and what each leaves unchanged |
| `Recovery.ResolvedAddsUpIff` | src/reconcile/recovery.cpp:141-160 | for any rows: how many are unresolved, and that the counters add up to what there was exactly if no more orders become Unknown than are resolved |
| `Recovery.ResolvedAddsUp` | src/reconcile/recovery.cpp:141-160 | in particular if no row is Unknown, however rows and orders match |
| `Recovery.SecondRecoveryHidesRefusal` | src/reconcile/recovery.cpp:96-97 | two recoveries of which the second resumes over a row the engine refuses |
| `Recovery.Recover` | src/reconcile/recovery.cpp:70-185 | the sequence of checks computes the specified outcome and folds in a snapshot only behind a live session |
| `BasketGraph.TopologicalOrder` | src/options/basket.cpp:69-124 | succeeds exactly if ids are non-empty and unique, dependencies known and the graph acyclic; then every leg is ordered once, prerequisites first; otherwise a set of legs remains that wait for each other |
| `BasketGraph.Drain` | src/options/basket.cpp:98-120 | the queue loop ends with every leg ordered whose prerequisites are, and no other |
| `BasketGraph.KnotHasCycle` | src/options/basket.cpp:121-123 | legs that wait for each other form a cycle |
| `BasketGraph.OrderedIsAcyclic` | src/options/basket.cpp:69-124 | a graph with an execution order has no cycle |
| `Basket.ExecuteBasket` | src/options/basket.cpp:160-349 | placement, classification and unwinding: statuses, outcome and the exact calls made |
| `Basket.PlacedOnceAndReady` | src/options/basket.cpp:207-249 | no leg is placed twice, and a leg is placed exactly if all its prerequisites executed, each placed before it |
| `Basket.RunsAgree` | src/options/basket.cpp:207-249 | statuses and outcome depend only on the answers, not on the order found |
| `Basket.OutcomeSays` | src/options/basket.cpp:251-338 | complete exactly if every leg executed; if any leg may be live without an id, nothing is unwound |
| `Basket.StatusSays` | src/options/basket.cpp:47-54 | the status of every leg by the answer to its placement, error action and category written out, the final status behind unwinding, and the outcome by them |
| `Basket.UnwindIsSafeIff` | src/options/basket.cpp:293-325 | after any number of unwinds every live leg has its prerequisites live, if and only if every executed dependent of an unwound leg could be unwound too |
| `Basket.ResultIsSafeIff` | src/options/basket.cpp:251-338 | so for the final statuses, whatever the outcome |
| `Basket.UnwindIsSafeUntilFailure` | src/options/basket.cpp:293-325 | until some unwind fails, every leg still live has all its prerequisites still live |
| `Basket.NothingLeftLive` | src/options/basket.cpp:293-325 | every executed leg is tried, and if no unwind fails none stays live |
| `Basket.UnwindGoesOnPastFailure` | src/options/basket.cpp:300-325 | three legs and their answers, with the run that leaves a short leg live and unwinds its hedge |
| `RefdataCache.OneHolderAndWholeArtifacts` | src/platform/file_lock.cpp:529-610 | over every interleaving and crash at most one process holds the lock, and everything published was delivered whole and is valid |
| `RefdataCache.OneDownload` | src/accounts/shared_refdata_cache.cpp:376-458 | with reads that do not fail and a validator that refuses the empty text: no download over a usable artifact or behind a publish, at most one publish, the same bytes for every caller |
| `RefdataCache.FirstArtifactStays` | src/accounts/shared_refdata_cache.cpp:129-172 | the first usable artifact stays and is what everyone is told |
| `RefdataCache.OneDownloadIff` | src/accounts/shared_refdata_cache.cpp:99-117 | the guarantee holds for exactly these configurations |
| `LockPayload.RoundTripIff` | src/platform/file_lock.cpp:395-449 | exactly the payloads with non-empty one-line texts that do not end in a carriage return are read back as written |
| `LockPayload.CutPayloadIsNotOurs` | src/platform/file_lock.cpp:216-243 | a payload cut at any byte carries our nonce only if nothing but the last newline is missing |
| `LockPayload.ReadAll` | src/platform/file_lock.cpp:400-449 | the scanning loop reads the lines one after another |
| `StrategyBook.CashIsConserved` | src/isolation/strategy_book.cpp:35-79 | realized profit differs from cash plus position at cost by exactly what the averages' divisions dropped, at most one less than the new size per same-side add; net is the sum of fills; flat means no cost |
| `StrategyBook.PositionFollowsOwnFills` | src/isolation/strategy_book.cpp:45-47 | over any run for any strategies, a position is what its own fills make it |
| `StrategyBook.AfterFillIff` | src/isolation/strategy_book.cpp:35-79 | a position behind a fill is the one its case says and no other: averaged in, partly or wholly closed at its own average, or reversed at the fill's price |
| `StrategyBook.StrategyBook.ApplyFill` | src/isolation/strategy_book.cpp:35-79 | one position changes as its case says, from its values before and the fill alone, no other position and no flag does, and a zero fill creates no record |
| `StrategyBook.StrategyBook.SquareOffIsolated` | src/isolation/strategy_book.cpp:112-135 | one leg for each open position of the strategy, which is then flat; no other strategy is touched |
| `StrategyBook.StrategyBook.SquareOffNetted` | src/isolation/strategy_book.cpp:137-165 | one leg for each symbol with an account net, and every strategy is flat |
| `StrategyBook.LegsCancelNet` | src/isolation/strategy_book.cpp:112-165 | executing the legs leaves a net of exactly zero in every symbol |
| `StrategyBook.NetAll` | src/isolation/strategy_book.cpp:140-145 | the nested loops sum each symbol over all strategies, in any order |
| `RateLimiter.RateLimiter.TryAcquire` | src/ratelimit/rate_limiter.cpp:42-83 | decides and updates exactly as a bucket that gains a token at every tick |
| `RateLimiter.WindowBound` | src/ratelimit/rate_limiter.cpp:42-83 | grants in a window are at most the capacity plus its whole periods plus one, for any clock; without refill at most the capacity |
| `RateLimiter.TokensAreConserved` | src/ratelimit/rate_limiter.cpp:42-83 | what was granted and what is left come from what there was and the ticks that passed |
| `RateLimiter.NoDrift` | src/ratelimit/rate_limiter.cpp:60-71 | the ticks credited are those of the latest time seen, whatever the spacing of calls |
| `RateLimiter.EntriesLeaveReserve` | src/ratelimit/rate_limiter.cpp:74-83 | no run of entries takes the bucket below the reserve, so an exit is still granted |
| `RateLimiter.ClampedSays` | src/ratelimit/rate_limiter.cpp:20-41 | what the constructor makes of a capacity, reserve or period out of range; no period, no refill |
| `FreezeSlicer.Slice` | src/slicing/freeze_slicer.cpp:34-111 | succeeds exactly on sliceable orders; children add up, each is lot-aligned between one lot and the freeze quantity and otherwise the parent; all but the last are largest |
| `FreezeSlicer.SliceCountIsMinimal` | src/slicing/freeze_slicer.cpp:71-110 | no other lot-aligned split under the freeze quantity has fewer parts |
| `FreezeSlicer.SliceRefsDistinct` | src/slicing/freeze_slicer.cpp:25-30 | children have different refs, and each names its parent |
| `ValidationGate.AcceptedIff` | src/risk/validation_gate.cpp:136-280 | what checks 4 to 9 accept, as one condition, and when they ask for slicing |
| `ValidationGate.RejectedIff` | src/risk/validation_gate.cpp:136-280 | an order is rejected by the first check, by number, that it does not pass |
| `ValidationGate.AllowedIsNotSliced` | src/risk/validation_gate.cpp:249-280 | an order passed to be placed as it is is within the freeze quantity, and the slicer refuses it only for being a child |
| `ValidationGate.SlicedChildrenPass` | src/risk/validation_gate.cpp:249-280 | an order passed on for slicing can be sliced exactly if a lot fits and it is no child, and every child passes as it is |
| `SlicedLeg.NoChildAttemptedTwice` | src/options/sliced_leg.cpp:115-148 | over any number of runs with a probe that knows of every attempt, no child is handed to the placer twice |
| `SlicedLeg.CompleteIff` | src/options/sliced_leg.cpp:115-157 | complete exactly if no child is ambiguous; nothing behind the first ambiguous child is touched |
| `SlicedLeg.LegSays` | src/options/sliced_leg.cpp:115-148 | each child's placement by what probe and placer say, which children are attempted, and what the counters count |
| `SlicedLeg.ExecuteSlicedLeg` | src/options/sliced_leg.cpp:47-158 | nothing is placed without a placer or a valid slicing; otherwise the children are placed in order with exact results, attempts and counters |
| `Money.RoundToTickIsNearest` | src/domain/money.cpp:47-91 | for every 64-bit price and positive tick: the nearest multiple, ties toward plus infinity, if it is a 64-bit number, else the price unchanged |
| `Money.NearestExists` | src/domain/money.cpp:47-91 | the nearest multiple exists, and leaves the range only within half a tick of its ends |
| `Money.NoStepWraps` | src/domain/money.cpp:65-77 | neither the unsigned addition nor the multiplication wraps |
| `Money.RoundingIsStable` | src/domain/money.cpp:47-91 | rounding twice changes nothing |
| `Money.FormatPaiseInjective` | src/domain/money.cpp:13-35 | different amounts have different texts, the smallest 64-bit number included |
| `Money.FormatPaiseReads` | src/domain/money.cpp:13-35 | the text is a sign, the rupees, a point and two digits, and these read back as the amount |
| `Redaction.ScrubIsIdempotent` | src/domain/redaction.cpp:239-295 | scrubbing what was scrubbed changes nothing |
| `Redaction.OutputIsClean` | src/domain/redaction.cpp:239-295 | in the output every token run of twenty or more that mixes letters and digits is the key of a sensitive pair |
| `Redaction.Scrub` | src/domain/redaction.cpp:239-295 | the loop computes the specified text, and never stops inside a token run |
| `Redaction.TryKeyValue` | src/domain/redaction.cpp:184-235 | what of a sensitive pair is kept and where its value ends |
| `Redaction.ContextAgain` | src/domain/redaction.cpp:128-154 | a marker written before a run sets no auth context that the text did not |
| `SecretsHidden.OutputHidesSecrets` | src/domain/redaction.cpp:239-295 | in the output every value behind a secret's name, separator and optional quotes is empty or the marker, and every bare credential, opaque or a code behind an auth word, is itself such a name |
| `SecretsHidden.UnchangedIff` | src/domain/redaction.cpp:239-295 | exactly the texts that hide their secrets already pass unchanged |
| `SecretsHidden.SecretIsHidden` | src/domain/redaction.cpp:184-235 | every named secret of the text is written as its key and separator and the marker, unless it stands inside a value that is hidden so |
| `SecretsHidden.BareRunIsWritten` | src/domain/redaction.cpp:247-287 | every other run is written as the marker exactly if it is a credential, and as it is if not, unless it stands inside a hidden value |
| `SecretsHidden.ScrubSays` | src/domain/redaction.cpp:239-295 | what is written for each part of the text, by the secrets of the text alone |
| `SecretsHidden.NamesSecretIff` | src/domain/redaction.cpp:96-120 | a key is sensitive exactly if it contains one of the nine words, in any case |
| `SecretsHidden.CredentialIff` | src/domain/redaction.cpp:122-175 | a bare run is redacted exactly if it is opaque, or four to eight digits with one of the four auth words just before |
| `Provenance.IdShapeIff` | src/domain/redaction.cpp:297-343 | the id shape as a statement about the text: bounded, in the charset, every stretch all letters or all hex, at least two stretches |
| `Provenance.IsProvenanceIdShape` | src/domain/redaction.cpp:297-343 | the one-pass loop with its early returns decides the shape |
| `Provenance.ValidNameIff` | src/domain/redaction.cpp:443-546 | exactly the valid strategy names, and every suggested spelling is one |
| `Provenance.SplitLeavesNoMixed` | src/domain/redaction.cpp:398-424 | splitting leaves no mixed segment, so the recursion for a suggestion ends |
| `Provenance.MintedIsIdShape` | src/idempotency/idempotency.cpp:155-165 | every ref minted from a valid name has the shape of an id |
| `Provenance.MintedChildIsIdShape` | src/idempotency/idempotency.cpp:167-173 | so has a child of it, exactly within the length bound, which seventeen digits never exceed |
| `Provenance.MintedIsShown` | src/domain/redaction.cpp:587-660 | names, refs and child refs are rendered in full |
| `Provenance.BodyIsContained` | src/domain/redaction.cpp:626-659 | no value can close the block, forge a field or break the line: one equals sign per shown field |
| `Provenance.BlockReadsBack` | src/domain/redaction.cpp:626-659 | the block reads back as exactly the shown fields, in order, each with its rendered value |
| `Provenance.RenderedSays` | src/domain/redaction.cpp:587-624 | a column shows its value exactly as its kind's shape allows, and otherwise what scrubbing leaves, or the marker |
| `Provenance.RenderBlock` | src/domain/redaction.cpp:626-659 | the loop renders exactly the fields with a value and a safe key |
| `Uuid.UuidShape` | src/idempotency/uuid.cpp:24-47 | five groups of lower-case hex digits, 8-4-4-4-12, 36 characters (section 4.4 of RFC 4122) |
| `Uuid.UuidVersion` | src/idempotency/uuid.cpp:25-30 | version 4 and variant 10 stand where the standard puts them |
| `Uuid.UuidSameIff` | src/idempotency/uuid.cpp:24-47 | two texts are equal exactly if the random words agree outside the version and the variant: no other bit is lost |
| `Uuid.AppendHex` | src/idempotency/uuid.cpp:16-20 | the shift loop appends exactly the low digits, highest first |

## Left out

- Broker transport, sessions, SQLite, file-system calls and threads: replaced by parameters, maps and byte sequences.
- Signing and encryption: their libraries are not part of this model, so a signature and its check are parameters of the ledger's checkpoint; the checkpoint's JSON and its atomic publication are not modelled.
- Configuration, calendars, composition, health endpoint, alert delivery, error texts and enum names: plumbing, or settled by reading one branch.
- Posture and mode tables, session, modify and price-band guards, risk limits, margin and hedge checks: short case splits.
- Stale-lock takeover: its guarantee is advisory by design, so `RefdataCache` covers the runs in which it does not fire.
- Validation of the cache key, the two sanity validators and the sweep of old temporary files: no state is involved.
- JsonLine.Parse: accepts what the writers emit, in any order and with any keys, but not other spellings of the same JSON, which no file of the library contains.
- IntentLog.Log.Replay: a field of the wrong type, which would throw in the JSON library, is an error of its own here.
- Dispatcher.Restart: covers at most one append of the dead process that failed and left bytes, with nothing behind them; longer residues are covered by the state machine, which lists what the next replay may find.
- Dispatcher.Dispatcher.Withdraw: stands for cancel and square-off, which differ only in the operation they record and send.
- Dispatcher.Dispatcher.Place: the texts of result records are parameters, and freshness of the minted ref is required, as the generator of random ids provides it only with overwhelming probability.
- Lifecycle.LifecycleEngine.Apply: takes and returns the order as a value instead of changing it in place; the reconciler writes it back into its array.
- Ledger.Ledger.Append: takes the text after scrubbing and rendering, which `Redaction` and `Provenance` model on their own.
- RefdataCache.OneDownload: says nothing about downloads that end in an error; these may be repeated by design.
- StrategyBook.StrategyBook.SquareOffNetted: the order of the legs by symbol is not modelled, nor are exposure caps and the new-order check.
- Sha256.Hasher.Transform: the four word formulas are fields of the object, set to those of the standard by `Fips`, so that these proofs do not depend on bit-level arithmetic; `Sha256Words` has that part.
- Basket.ExecuteBasket: per-leg detail texts and alerts are not modelled.
- Provenance.ValidNameIff: reasons are values, not texts; the name as shown in a message is not modelled.
