# Event recorder model

This project models the event recorder of keymaster's `eventmon`
(`eventmon/eventrecorder/impl.go`) in Dafny. The recorder is a single loop
that owns a per-user history of credential issuances. It does five things,
and the model covers each:

- it records SSH and X.509 issuances, with the lifetime quantised;
- it expires records older than 31 days once an hour;
- it serves newest-first snapshots from a cache that is dropped on every change;
- it writes the snapshot to a file five seconds after a change;
- it rebuilds the history from that file at startup.

The project has six modules:

- `Types` (`types.dfy`): uint32 and uint64 as subset types, the issuance
  record `Event`, the `uint64` conversion, and the retention cutoff.
- `Quantise` (`quantise.dfy`): lifetime quantisation, with the program's
  uint32 arithmetic (wrap-around included) set against a policy-level
  reference definition.
- `History` (`history.dfy`): one user's history as a sequence, oldest
  first. It defines the three things done to such a sequence: reversal
  (the snapshot walk), cutting the stale prefix (expiry) and filtering out
  stale records (the loader).
- `EventStore` (`store.dfy`): the map from user name to history, with
  record, expire, snapshot, the snapshot cache, and loading from a decoded
  file.
- `Chain` and `ChainStore` (`chain.dfy`, `chainstore.dfy`): the doubly
  linked chains the program actually keeps, as an arena of nodes with
  handle links. Append, expiry, the snapshot walk and the loader are proved
  to refine the sequence operations of `History` and `EventStore`.
- `Recorder` (`recorder.dfy`): the event loop as a state machine over
  (store, cache, save deadline, expiry deadline), and the start-up.

## Behaviour worth noting

- **Load order.** The snapshot walk (impl.go:169-171) starts at each
  chain's `newest` node and follows `older`, so every saved slice is newest
  first. The save fire (impl.go:114-115) writes that snapshot. The loader
  (impl.go:64-71) appends the decoded slice at the newest end in slice
  order, so every chain comes back newest first. Expiry (impl.go:197-200)
  stops at the first record that is not stale, which is only right on a
  chain that is oldest first. `EventStore.LoadEvents` and
  `Recorder.NewRecorder` model the loader and start-up as written. The
  reversal is logged under Findings, next to the corrected
  `EventStore.LoadEventsInOrder` and `Recorder.NewRecorderInOrder`.
- **Dropped reply.** A snapshot request whose reply is dropped still
  rebuilds and caches the snapshot. The send's value is evaluated on
  entering the non-blocking `select` (impl.go:108-112).
- **Save timer fire.** A save timer fire is handled whatever the deadline
  says. A `Reset` on a timer that has already fired may leave a stale tick
  in its channel.
- **Saves are handed off, not confirmed.** A failed save is only logged
  (impl.go:115-117). The durability statements below are about the last
  snapshot handed to the saver, which is what the file holds only if
  every save succeeded.

## Model

Each operation is a function whose contract is stated where it is defined
or in the lemma next to it. The rows below name the member that carries the
contract. A row for a lemma stands for the operation it is about:
- `Chain.AppendEvent` is covered by `Chain.AppendValid`.
- `Chain.ExpireList` and `Chain.Unlink` are covered by `Chain.ExpireListRefines` and `Chain.UnlinkValid`.
- `EventStore.Snapshot` is covered by `EventStore.SnapshotNewestFirst`.
- `History.ExpireHistory` is covered by `History.StaleCount`.
- `ChainStore.RecordChain`, `ChainStore.ExpireChains` and `ChainStore.SnapshotChains` are covered by their `…Refines` lemmas.
- `Recorder.Running`, the loop's starting state, is covered by the two start-up functions.

| member | source | states |
|---|---|---|
| Types.MinCreateTime | eventmon/eventrecorder/impl.go:194 | the expiry cutoff is the clock reading minus 31 days, read as uint64; within range, cutoff + 31 days equals now |
| Types.ToUint64 | eventmon/eventrecorder/impl.go:145 | the creation time is the clock reading reinterpreted as uint64: unchanged when non-negative, offset by 2^64 when negative |
| Quantise.Quantise | eventmon/eventrecorder/impl.go:124-137 | for every uint32, the lifetime stored equals the policy: at 3600 s or more, round up to the next whole hour when at most 60 s away; from 60 s, round up to the next minute when at most 1 s away; below 60 s, unchanged. The result is never smaller than the input, at most 1 s larger in the minute branch and 60 s in the hour branch, and exact minutes and hours are fixed points |
| Quantise.HourBranch | eventmon/eventrecorder/impl.go:125-130 | the hour branch meets the policy even where `lifetimeSeconds + 60` wraps around uint32 (wrapped sums never round) |
| Quantise.MinuteBranch | eventmon/eventrecorder/impl.go:131-136 | the minute branch rounds exactly when the lifetime is one second short of a whole minute |
| Quantise.QuantiseIdempotent | eventmon/eventrecorder/impl.go:124-137 | quantising an already quantised lifetime changes nothing (3599 → 3600 → 3600) |
| Quantise.QuantiseExamples | eventmon/eventrecorder/impl.go:124-137 | worked values: 59, 60, 61, 3550, 3540, 3600, 3601 and 5400 are kept; 119 → 120, 3599 → 3600, 7140 → 7200 |
| History.ReverseReverse | eventmon/eventrecorder/impl.go:169-171 | walking a newest-first sequence from its end gives the original order back |
| History.StaleCount | eventmon/eventrecorder/impl.go:197-201 | expiry removes exactly the longest prefix of records created before the cutoff: every removed record is stale and the first one kept is not |
| History.ExpireHistoryIdempotent | eventmon/eventrecorder/impl.go:193-211 | a second expiry with the same cutoff removes nothing |
| History.SortedSnoc | eventmon/eventrecorder/impl.go:143-158 | appending a record no older than any in a sorted history keeps it sorted |
| History.SortedSuffix | eventmon/eventrecorder/impl.go:197-206 | cutting records from the oldest end of a sorted history leaves it sorted |
| History.ExpireSortedLeavesFresh | eventmon/eventrecorder/impl.go:197-200 | on a sorted history the early `break` leaves no stale record |
| History.Fresh | eventmon/eventrecorder/impl.go:60-63 | the loader's filter never lengthens a slice and keeps only records at or after the cutoff |
| History.FreshMembers | eventmon/eventrecorder/impl.go:60-75 | a record survives loading iff it was saved and is at or after the cutoff (a filter, not a prefix cut) |
| History.FreshReverse | eventmon/eventrecorder/impl.go:60-63 | filtering commutes with reversal |
| History.FreshKeepsFresh | eventmon/eventrecorder/impl.go:60-63 | a slice with no stale record loads unchanged |
| History.ExpireSortedIsFresh | eventmon/eventrecorder/impl.go:197-200 | on a sorted history, cutting the stale prefix and filtering stale records agree |
| History.ExpireUnsortedMissesStale | eventmon/eventrecorder/impl.go:197-200 | on an unsorted history the early `break` keeps a stale record that the filter would drop |
| EventStore.Append | eventmon/eventrecorder/impl.go:138-158 | the user's history becomes the old one plus the new record at the newest end; an absent user gets an entry; every other user is unchanged |
| EventStore.RecordEvent | eventmon/eventrecorder/impl.go:122-159 | the new record carries the clock reading as uint64, the quantised lifetime (never below the given one) and the ssh/x509 flags, and is the only change to the store |
| EventStore.ExpireAllChanged | eventmon/eventrecorder/impl.go:195-210 | some history lost a record iff the store changed |
| EventStore.ExpireOldEvents | eventmon/eventrecorder/impl.go:193-211 | no user entry is removed, each history loses exactly its stale prefix, and the result is true iff anything was removed |
| EventStore.ExpireOldEventsIdempotent | eventmon/eventrecorder/impl.go:193-211 | a second expiry at the same clock reading changes nothing and reports false |
| EventStore.RecordKeepsOrdered | eventmon/eventrecorder/impl.go:122-159 | recording at a clock reading no earlier than any stored record keeps every history sorted and not after that reading |
| EventStore.ExpireKeepsOrdered | eventmon/eventrecorder/impl.go:193-211 | expiry keeps every history sorted and not after a given reading |
| EventStore.SnapshotNewestFirst | eventmon/eventrecorder/impl.go:166-173 | the snapshot has one entry per user holding that user's records newest first, non-increasing in creation time when the history is sorted |
| EventStore.GetEventsList | eventmon/eventrecorder/impl.go:161-176 | a present cache is returned unchanged; otherwise the snapshot is built from the store (one key per user, each history reversed), and in both cases the cache afterwards holds what was returned |
| EventStore.LoadEvents | eventmon/eventrecorder/impl.go:44-78 | an unopenable file gives an empty store plus the error; an undecodable one gives only the error; otherwise every saved user gets an entry holding its saved slice, stale records dropped, in slice order |
| EventStore.SaveLoadReverses | eventmon/eventrecorder/impl.go:58-71 | loading a saved snapshot gives every user the reverse of the filtered history, so the round trip is not the identity |
| EventStore.ReloadReversesHistory | eventmon/eventrecorder/impl.go:60-71 | concretely, records [early, late] come back as [late, early] |
| EventStore.ReloadedExpiryKeepsStale | eventmon/eventrecorder/impl.go:197-200 | after that reload, expiry 31 days after the early record keeps it, where expiry on the original history drops it |
| EventStore.LoadEventsInOrder | eventmon/eventrecorder/impl.go:44-78 | the corrected loader: the same error cases, and every user's slice walked from its end so the history is oldest first again |
| EventStore.SaveLoadRoundTrip | eventmon/eventrecorder/impl.go:58-75 | with the corrected loader, save then load gives every history back in order, minus stale records |
| EventStore.SaveLoadSortedIsExpiry | eventmon/eventrecorder/impl.go:193-211 | on sorted histories the corrected round trip equals expiry at the same clock reading |
| EventStore.SaveLoadIdentity | eventmon/eventrecorder/impl.go:58-75 | when nothing is stale the corrected round trip is the identity |
| Chain.ValidEnds | eventmon/eventrecorder/impl.go:150-158 | on a well-linked chain, `oldest` is nil iff `newest` is, `oldest.older` and `newest.newer` are nil, and the chain is empty iff `oldest` is nil |
| Chain.Walks | eventmon/eventrecorder/impl.go:169-171 | walking from `newest` via `older` yields exactly the reversed history; walking from `oldest` via `newer` yields the history |
| Chain.AppendValid | eventmon/eventrecorder/impl.go:143-158 | linking a new node in at the newest end keeps the chain well linked and appends the record to its history |
| Chain.Unlink | eventmon/eventrecorder/impl.go:201-206 | unlinking the oldest node frees exactly that node |
| Chain.UnlinkValid | eventmon/eventrecorder/impl.go:201-206 | unlinking the oldest node leaves a well-linked chain holding the rest of the history |
| Chain.ExpireListRefines | eventmon/eventrecorder/impl.go:196-209 | expiry on a chain leaves a well-linked chain holding exactly the history with its stale prefix cut, and reports a change iff a node was removed |
| Chain.LoadStep | eventmon/eventrecorder/impl.go:60-75 | one loader iteration skips a stale record or appends a fresh one, keeping the chain equal to the filtered prefix read so far |
| Chain.LoadList | eventmon/eventrecorder/impl.go:58-76 | the rebuilt chain is well linked with handles holding exactly the filtered slice, has consistent ends, and walks oldest first to the filtered slice and newest first to its reverse |
| ChainStore.RecordChainRefines | eventmon/eventrecorder/impl.go:138-158 | recording on the chains is recording on the store: the recording user's chain gains the freshly allocated handle at its newest end, every other chain is unchanged |
| ChainStore.SnapshotChainsRefines | eventmon/eventrecorder/impl.go:166-173 | walking every chain newest first gives the snapshot of the store |
| ChainStore.ExpireChainsRefines | eventmon/eventrecorder/impl.go:193-211 | expiry over the chains is expiry over the store, changed flag included |
| Recorder.Step | eventmon/eventrecorder/impl.go:89-118 | an SSH certificate records an event for its first principal and an X.509 certificate one for its common name; the hourly tick expires the store and re-arms itself an hour ahead, and leaves cache and save deadline alone when nothing expired; certificates and a changing expiry drop the cache and set the save deadline 5 s ahead; requests and save fires never change the store, keep a present cache and otherwise fill it with the snapshot of the store, and a request leaves the save deadline alone; a save happens exactly on a save fire and stops the timer; a reply is sent iff the receiver is ready; every reply and save is what the cache holds afterwards; a coherent cache stays coherent, and every reply and save is then the snapshot of the store |
| Recorder.StepKeepsOrdered | eventmon/eventrecorder/impl.go:89-118 | a step at a clock reading no earlier than any record keeps every history sorted by creation time and free of records from the future |
| Recorder.TickLeavesFresh | eventmon/eventrecorder/impl.go:193-211 | on such an ordered store the hourly tick leaves no stale record in any history |
| Recorder.StepDurable | eventmon/eventrecorder/impl.go:91-117 | one step keeps "no save pending ⇒ the last snapshot handed to the saver is the current snapshot", that snapshot being replaced by the one the step hands over, if any |
| Recorder.RunKeepsInvariants | eventmon/eventrecorder/impl.go:89-118 | over any run of messages the cache stays coherent and, whenever no save is pending, the last snapshot handed to the saver is the snapshot of the store |
| Recorder.RunKeepsOrdered | eventmon/eventrecorder/impl.go:89-118 | from an ordered store (the empty start, or the corrected start-up from an ordered store's snapshot), over any run whose clock readings never go back, every history stays sorted by creation time and not after the last reading, so the sorted-history results hold for every store the loop then builds |
| Recorder.BurstDefersSave | eventmon/eventrecorder/impl.go:91-101 | a burst of certificates produces no output, leaves the cache dropped and moves the save deadline to 5 s after the last one |
| Recorder.RunIsBurstStore | eventmon/eventrecorder/impl.go:91-101 | a run of certificates leaves the store that recording each certificate in arrival order gives, under the first principal or the common name |
| Recorder.BurstStoreHistory | eventmon/eventrecorder/impl.go:138-158 | recording a sequence of certificates appends to every user's history exactly that user's records, in arrival order, each stamped with its clock reading, quantised lifetime and kind; other users' histories are unchanged |
| Recorder.BurstRecords | eventmon/eventrecorder/impl.go:91-101 | after a burst of certificates every user's history is the one before followed by that user's certificates of the burst in arrival order |
| Recorder.BurstThenSave | eventmon/eventrecorder/impl.go:113-117 | the save fire after a burst hands one snapshot to the saver, that of the store after the whole burst, and leaves no save pending |
| Recorder.NewRecorder | eventmon/eventrecorder/impl.go:23-42 | a missing file starts an empty recorder; any other open or decode failure stops the start; a decoded file gives each saved user its saved slice, stale records dropped, in slice order; the loop starts with the snapshot built, the save timer stopped and the hourly timer an hour ahead |
| Recorder.RestartReverses | eventmon/eventrecorder/impl.go:23-71 | a recorder with no save pending, restarted from the last snapshot it handed to the saver while nothing is stale, comes back with every user's history reversed |
| Recorder.NewRecorderInOrder | eventmon/eventrecorder/impl.go:23-42 | the corrected start-up: the same error cases and starting state, with each saved slice loaded from its end so every history is oldest first again |
| Recorder.RestartRestores | eventmon/eventrecorder/impl.go:23-27 | with the corrected start-up, a recorder with no save pending, restarted from the last snapshot it handed to the saver while nothing is stale, comes back with the same store |
| Recorder.EmptyStartOrdered | eventmon/eventrecorder/impl.go:23-27 | a start without a history file gives an empty store, which is ordered |
| Recorder.RestartUnordered | eventmon/eventrecorder/impl.go:23-71 | the program's start-up from the snapshot of the ordered store {alice: [T+100, T+200]} gives alice the unsorted history [T+200, T+100], so the sorted-history results do not apply after such a restart |
| Recorder.RestartInOrderOrdered | eventmon/eventrecorder/impl.go:23-71 | the corrected start-up from the snapshot of a store ordered up to an earlier reading starts, with a store ordered up to the start reading |

## Left out

- File I/O: opening, gob encoding and decoding, buffering, the renaming
  writer and file permissions (impl.go:45-55, 178-191). A load is
  given a `ReadOutcome`: the open failed (file missing or not), decoding
  failed, or it decoded to a map. A save is the `Save` output of a step.
  Save errors are only logged, so they do not change the state.
- Goroutines, channels, their buffer sizes and the logger. The loop takes
  one message per step in the order given. The non-blocking reply is the
  `receiverReady` flag of the request.
- Real timers. They are deadlines in the state, and the firing is a
  message. Nothing constrains when the environment delivers a fire.
- `uint32(lifetime.Seconds() + 0.5)` and `time.Until`: the floating-point
  rounding of a clock difference. The model starts from the lifetime as
  uint32 whole seconds. Negative lifetimes, whose conversion Go leaves to
  the implementation, are not modelled.
- The clock. `now` is an integer parameter and the `uint64` conversions
  are modelled. The int64 range of Go's Unix time is not.
- The `buildDuration` measurement in the snapshot (impl.go:165, 174). It
  is diagnostic only.
- The certificate structures. A message carries the principal list or the
  common name and the lifetime.
- Recorder.RunKeepsInvariants: the saver is not modelled, and a failed
  save is only logged (impl.go:115-117). The invariant is about the last
  snapshot handed to the saver. It says what the file holds only when
  every save succeeded.
- Recorder.RunKeepsOrdered: it takes clock readings that never go back
  and stay within the uint64 range. The program reads the wall clock,
  which can step backwards, and then records out of order. That case is
  not modelled.
- Recorder.Step: an SSH certificate without principals makes the program
  panic on `ValidPrincipals[0]`. The model requires at least one principal
  instead of modelling the crash.
- Chain.Valid: it says every listed handle is a linked node. It does not
  say that no other node remains in the arena, so freed nodes are not
  tracked beyond `Unlink` removing exactly one.
- `lib/pwauth/ldap/impl.go` is not part of this model. It is an
  independent password check over an LDAP bind and Argon2 hashing,
  both external libraries.

## Findings

| source | as written | input that shows it | evidently intended | confidence | as-written member | corrected member |
|---|---|---|---|---|---|---|
| eventmon/eventrecorder/impl.go:58-71 | the loader appends the saved slice in slice order, but the saved slice is the snapshot, which is newest first, so every chain comes back newest first | user "alice" with records created at T+100 and T+200 (T = 31 days): after a save and a load the chain is [T+200, T+100]; 31 days + 150 s later expiry stops at T+200 and keeps the stale T+100 | the chain comes back oldest first, as it was, so that expiry's early stop and the newest-first snapshot stay correct after a restart | high; not executed | EventStore.LoadEvents, Recorder.NewRecorder (EventStore.ReloadReversesHistory, EventStore.ReloadedExpiryKeepsStale, Recorder.RestartReverses, Recorder.RestartUnordered) | EventStore.LoadEventsInOrder, Recorder.NewRecorderInOrder (EventStore.SaveLoadRoundTrip, EventStore.SaveLoadSortedIsExpiry, Recorder.RestartRestores, Recorder.RestartInOrderOrdered) |
