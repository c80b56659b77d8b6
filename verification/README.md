# agent-share: the life of a share's tree and of its bytes

This project models how agent-share publishes, relays, follows, stores, plans,
fetches and advertises a share, and proves what the design promises about it.

A **producer** folds rescans into an append-only slot table; a slot number is
the address a reader uses for the life of the share. What it publishes travels
as **signed manifests** and deltas through relays nobody has to trust. A
**seeder** serves whatever chunks it happens to hold; a **swarm** fetch plans
work over arbitrary peers and checks every byte. **Availability fields** and
**tickets** are the texts and records peers exchange out of band, and two small
**registries** decide which memberships and which remembered seeders a tab
keeps. A side component packs the offline address-to-country table.

| file | what it holds |
|---|---|
| Wrappers, Sets, Codec, Unicode | options and results; sizes of sets; self-delimiting byte codecs and the law they keep; what a text is |
| Manifest, Authorship, Framing | trees, deltas, the signed envelope, catch-up answers, chunk maps |
| Bounds | what folding a delta does to the bounds a tree must keep to be encoded |
| Watch | the watch-frame acceptor, its runs, convergence, and what ends them |
| SlotTable, LiveState | the producer: the table as a value, and the object that keeps it |
| LiveTree | the delta a native producer sends, and when its followers can use it |
| EndToEnd | producer and consumers together |
| Chunks, Seeder | files as chunk rows, the store, and serving from it |
| Swarm, Fetch | the rarest-first plan, and a fetch that survives its peers |
| Base64, Serving | the availability field |
| Ticket | tickets and the lookup allowlist inside them |
| Layout | the bytes of every record, field by field |
| WaitingMesh, KnownSeeders | a tab's memberships and its roster |
| IpCountry | splitting, dominant countries, packing |

Loops and objects of the program are methods and classes here, each tied by its
`ensures` to a function on values; the laws are lemmas about those functions and
predicates. A few conventions:

- Ed25519 (section 5.1 of RFC 8032) is a predicate `verifies`; what a creator
  signed is a set of (version, bytes) pairs, and `Unforgeable` says nothing else
  verifies. Content hashing is an injective function, and a root is a row.
- A panic of the encoder while catching up is the outcome `Overflow`. It ends the
  program (`panic = "abort"`, Cargo.toml:111), so a run of frames stops for good
  there: `Running` says that none of its frames has done so.
- Peers, the home connection and the store's contents at the time of a request
  are arbitrary functions or parameters.
- Texts that other crates print and parse (relay URLs, addresses) are their own
  canonical form, and parsing is an arbitrary function onto it.

Where the repository's comments and its code disagree, the code is modelled:

- `Plan::unheld` is documented as being in the order wanted; it is sorted by
  number (crates/agent-share-wasm-client/src/swarm.rs:50, 101).
  `Swarm.UnheldCanLeaveWantedOrder` is a plan where the two differ, and
  `Swarm.UnheldInWantedOrderIff` says when they do not.
- Encoding a manifest is documented to panic only on a hand-built tree
  (crates/agent-share-proto/src/manifest.rs:230-233). A delta from the network is
  enough: `Watch.OverflowIff` says exactly when, `Watch.LastSlotOverflows` is a
  delta of 42 bytes that does it to any follower, and `Watch.GenuineCanBeMissed`
  a feed whose newest genuine frame is then never reached.
- Directories in a delta are documented as keyed by path because nothing
  addresses them by position (crates/agent-share-proto/src/manifest.rs:388-389).
  The signature does cover their order, so a follower refuses an honest delta
  that puts a new directory ahead of a kept one: `LiveTree.NewAheadOfOld` is such
  a rescan, `LiveTree.HonestDeltaIsBelievedIff` the exact condition.
- `LookupOpts::encode_into` is documented to panic past 16 rungs or 512 bytes;
  it panics only past 255 rungs or 65535 bytes, and writes what decoding then
  refuses (crates/agent-share-proto/src/lookup.rs:82-115). The command line
  puts no bound on a ladder
  (crates/agent-share/src/protocol/swarm/lookup.rs:109-121), so
  `Ticket.SeventeenRungs` can happen, with any URL and address; `Ticket.TicketRoundTripsIff` says exactly
  which tickets survive.
- Appending to any ticket is documented as ignored by this build; that holds
  for a ticket whose tail is complete, and `Ticket.AppendingIsInvisibleIff` says
  exactly which those are (crates/agent-share-proto/src/ticket.rs:246-248).
- The header of the availability codec says a field past its cap is omitted; the
  encoder falls back to a bitmap first
  (crates/agent-share-proto/src/serving.rs:19-23, 155-164).
- A marked duplicate is documented as collected by whoever lets go last; only a
  client's departure collects it
  (crates/agent-share-wasm-client/src/lib.rs:3834-3840, 1016-1052).

## Model

| member | source | states |
|---|---|---|
| Codec.IntegerRoundTrip | crates/agent-share-proto/src/manifest.rs:573-595 | a fixed-width little-endian integer reads back as what was written |
| Codec.IntegerReencodes | crates/agent-share-proto/src/manifest.rs:573-595 | every byte string of the width is the encoding of what it reads as |
| Codec.WholeIsCanonical | crates/agent-share-proto/src/manifest.rs:322-360 | for any canonical codec: decoding undoes encoding, an accepted string re-encodes to itself, and no extension of an accepted string is accepted |
| Codec.SizedIsCanonical | crates/agent-share-proto/src/manifest.rs:597-601 | a length-prefixed, capped and checked string is read back whatever follows, and whatever is read re-encodes to its own bytes |
| Unicode.TextIsUtf8 | crates/agent-share-proto/src/manifest.rs:597-601 | every sequence of Unicode scalar values, encoded, is accepted as a path |
| Unicode.Utf8IsText | crates/agent-share-proto/src/manifest.rs:597-601 | and nothing else is: whatever is accepted is the encoding of such a sequence |
| Codec.BothIsCanonical | crates/agent-share-proto/src/manifest.rs:328-360 | one canonical record after another is canonical |
| Codec.ViewedIsCanonical | crates/agent-share-proto/src/manifest.rs:336-340 | reading the same bytes through a bijection of values keeps canonicity |
| Codec.CountedIsCanonical | crates/agent-share-proto/src/manifest.rs:330-341 | a count followed by that many canonical items is canonical |
| Codec.ItemsDecodeBack | crates/agent-share-proto/src/manifest.rs:332-341 | any list of valid items reads back, using exactly its own bytes, whatever follows |
| Codec.ReadItems | crates/agent-share-proto/src/manifest.rs:330-341 | the reading loop computes the recursive list reader, failures included |
| Codec.Cursor.TakeTwoCounted | crates/agent-share-proto/src/manifest.rs:556-602 | the cursor hands over two counted lists and moves past them, or hands over nothing |
| Manifest.ManifestIsCanonical | crates/agent-share-proto/src/manifest.rs:235-360 | manifests: decode undoes encode for every in-bounds tree, accepted bytes re-encode to themselves, no extension of accepted bytes is accepted |
| Manifest.DeltaIsCanonical | crates/agent-share-proto/src/manifest.rs:423-519 | the same for deltas |
| Manifest.EncodingIsInjective | crates/agent-share-proto/src/manifest.rs:235-259 | two in-bounds trees with the same bytes are the same tree |
| Manifest.TimeCodecIsCanonical | crates/agent-share-proto/src/manifest.rs:591-595 | a signed time through its 64-bit two's complement form is canonical |
| Manifest.FilesAfterDelta | crates/agent-share-proto/src/manifest.rs:307-319 | after a delta every slot is: removed, else its last upsert, else what it was, else a tombstone; the list never shrinks and grows no further than an upsert |
| Manifest.DirsAfterDelta | crates/agent-share-proto/src/manifest.rs:275-306 | after a delta directories are a map override: last upsert, else removed, else untouched |
| Manifest.DirsStayDistinct | crates/agent-share-proto/src/manifest.rs:281-306 | directory paths stay distinct exactly when the delta names each new directory once |
| Manifest.MountManifest.Apply | crates/agent-share-proto/src/manifest.rs:274-320 | the in-place fold leaves exactly the tree the two lemmas above describe |
| Manifest.MountManifest.UpsertDirs | crates/agent-share-proto/src/manifest.rs:281-306 | the two-phase directory upsert: known paths rewritten in place, new ones appended in order |
| Manifest.MountManifest.PlaceFiles | crates/agent-share-proto/src/manifest.rs:307-313 | upserts land at their slots, the gap filled with tombstones |
| Manifest.MountManifest.ClearFiles | crates/agent-share-proto/src/manifest.rs:314-319 | removals become tombstones; a slot past the end is ignored |
| Manifest.MountManifest.Encode | crates/agent-share-proto/src/manifest.rs:235-259 | the encoding loop writes the canonical bytes |
| Manifest.DecodeManifest | crates/agent-share-proto/src/manifest.rs:328-360 | the cursor's reader accepts exactly what the codec accepts |
| Manifest.DecodeManifestDelta | crates/agent-share-proto/src/manifest.rs:472-519 | the same for deltas |
| Authorship.EnvelopeIsCanonical | crates/agent-share-proto/src/authorship.rs:159-191 | the envelope loses nothing, and every body of at least 72 bytes is the envelope of what it decodes to |
| Authorship.PayloadIsInjective | crates/agent-share-proto/src/authorship.rs:75-81 | what is signed determines both the version and the bytes |
| Authorship.AcceptedIsPublished | crates/agent-share-proto/src/authorship.rs:201-209 | an accepted envelope carries a pair its creator published |
| Framing.SinceIsCanonical | crates/agent-share-proto/src/framing.rs:318-381 | a catch-up answer within the delta cap is canonical both ways, with no prefix or extension accepted |
| Framing.SinceRoundTripsIff | crates/agent-share-proto/src/framing.rs:319-381 | of everything the encoder writes (deltas up to 4 GiB), an answer decodes to itself if every delta is within 8 MiB, and otherwise not at all |
| Framing.OversizeDeltaSpoils | crates/agent-share-proto/src/framing.rs:360-376 | one delta past the cap spoils its chain, wherever it stands |
| Framing.DecodeManifestSince | crates/agent-share-proto/src/framing.rs:347-381 | the reader's loop accepts exactly what the codec accepts |
| Framing.EncodeManifestSince | crates/agent-share-proto/src/framing.rs:319-339 | on every answer it does not panic on, oversize deltas included, the writer produces the answer's encoding |
| Framing.ChunkMapIsCanonical | crates/agent-share-proto/src/framing.rs:431-489 | a chunk map reads back whatever trails it, and what is accepted re-encodes to the bytes it took |
| Framing.HaveRoundTripsIff | crates/agent-share-proto/src/framing.rs:534-563 | a have answer decodes exactly when its bitmap covers the count it claims, to those bits |
| Bounds.InBoundsIff | crates/agent-share-proto/src/manifest.rs:230-259 | encoding a tree whose entries fit their fields panics exactly when it has more directories or files than a u32 counts |
| Bounds.FileCount | crates/agent-share-proto/src/manifest.rs:307-313 | a delta makes a countable file list uncountable exactly when it upserts the last 32-bit slot |
| Watch.OverflowIff | crates/agent-share-proto/src/manifest.rs:140-166 | catching up panics if and only if the answer is no rollback, everything decodes, and some delta upserts the last 32-bit slot or the rebuilt tree has more directories than a u32 counts; author and signature do not matter |
| Watch.LastSlotOverflows | crates/agent-share-proto/src/manifest.rs:152-156 | one concrete delta makes catching up panic, for any decodable manifest held, any author and any signature |
| Watch.ApplySince | crates/agent-share-proto/src/manifest.rs:140-166 | the catch-up loop computes the rebuilt, resealed and checked envelope, the refusal, or the panic, and the last exactly when the answer overflows |
| Watch.Consumer.ApplyWatchFrame | crates/agent-share-proto/src/manifest.rs:186-216 | a believed frame advances what is held and returns its tree; a refused one leaves it untouched; a readable frame of an unsigned share is believed unless behind; the program ends exactly on a delta frame that overflows |
| Watch.BelievedFramesAreSafe | crates/agent-share-proto/src/manifest.rs:186-216 | a believed frame never rolls back, decodes, and on a signed share is a published pair, deltas included |
| Watch.RunsAreSafe | crates/agent-share-proto/src/manifest.rs:168-216 | over every sequence of frames: versions never fall between any two moments, and what is held is the start or something published |
| Watch.WholeFrameBelieved | crates/agent-share-proto/src/manifest.rs:193-205 | a whole frame is believed if and only if it is genuine, decodable and not older |
| Watch.UnsignedFrameBelieved | crates/agent-share-proto/src/manifest.rs:193-205 | on an unsigned share a whole frame is believed if and only if its envelope and tree decode and it is not older, and is then what is held |
| Watch.DeltaFrameBelieved | crates/agent-share-proto/src/manifest.rs:140-166 | a delta frame is believed if and only if the answer and all its deltas decode, it is no rollback, it does not overflow and, on a signed share, the signature covers the tree they lead to, which is then what is held |
| Watch.OtherKindsAreRefused | crates/agent-share-proto/src/manifest.rs:206-212 | a frame of any kind but 0 and 1 is refused |
| Watch.GenuineIsReached | crates/agent-share-proto/src/manifest.rs:186-216 | after any frames, whole, delta or noise, what is held is past every genuine whole frame that came before an overflow, or has its version and bytes |
| Watch.UnsignedIsFollowed | crates/agent-share-proto/src/manifest.rs:186-216 | without an author a follower is never behind a readable whole frame that came while it ran, and holds the last one if that is not behind |
| Watch.OverflowIsFinal | crates/agent-share-proto/src/manifest.rs:186-216 | nothing after an overflow is believed, however genuine |
| Watch.GenuineCanBeMissed | crates/agent-share-proto/src/manifest.rs:186-216 | a concrete feed after which a follower still holds its start, whatever genuine frame came last |
| Watch.ConsumersConverge | crates/agent-share-proto/src/manifest.rs:186-216 | for any order, repetition and mix of genuine and forged whole frames, the consumer ends at the newest genuine one delivered, or its start |
| Watch.ConsumersAgree | crates/agent-share-proto/src/manifest.rs:186-216 | two consumers given the same set of frames end at the same version and bytes |
| Watch.RebuiltInPieces | crates/agent-share-proto/src/manifest.rs:152-156 | folding a chain equals folding its parts, with a decode and encode between |
| Watch.CatchingUpInPieces | crates/agent-share-proto/src/manifest.rs:140-166 | stopping anywhere on the way and going on gives the same outcome as one chain, refusals included |
| Watch.WhenTheStopIsRefused | crates/agent-share-proto/src/manifest.rs:145-165 | when the one chain is believed, stopping on the way is refused exactly if the middle tree does not encode or is not signed |
| SlotTable.FirstWinsFinds | crates/agent-share-wasm-client/src/live_state.rs:187-197 | dropping later duplicates keeps the first entry of every path |
| SlotTable.FirstWinsIsDistinct | crates/agent-share-wasm-client/src/live_state.rs:187-197 | what is left names each path once and adds nothing |
| SlotTable.FoldedIsTheScan | crates/agent-share-wasm-client/src/live_state.rs:59-107 | after a fold each slot is what the first-wins scan says of its path, unchanged entries keeping their payload; no path loses or changes its slot |
| SlotTable.SlotsAreAppended | crates/agent-share-wasm-client/src/live_state.rs:82-89 | for any scan, repeats included, new slots are exactly the paths not known before, in the order the scan first names them, after all old ones |
| LiveState.DirsDifferIsExact | crates/agent-share-wasm-client/src/live_state.rs:199-214 | equal length plus containment is set equality: the test is exact on distinct paths |
| LiveState.FlagIsExact | crates/agent-share-wasm-client/src/live_state.rs:64-107 | the changed flag raised in the loops is raised exactly when the file list changes |
| LiveState.VersionRisesWithTheBytes | crates/agent-share-wasm-client/src/live_state.rs:92-120 | the version rises by one exactly when the published bytes change, and otherwise nothing changes |
| LiveState.LiveEntriesAreTheScan | crates/agent-share-wasm-client/src/live_state.rs:55-121 | after a rescan the live entries are the first-wins rescan, path by path |
| LiveState.RescanPublishesTheListing | crates/agent-share-wasm-client/src/live_state.rs:59-121 | after a rescan directories and live files are those scanned; a view that changed carries the directory list as scanned; it stays as it was if and only if it already showed both |
| LiveState.FirstListingIsARescan | crates/agent-share-wasm-client/src/live_state.rs:30-53 | the first listing is a rescan of nothing, payloads included |
| LiveState.LiveState.constructor | crates/agent-share-wasm-client/src/live_state.rs:30-53 | the first listing takes slots in order, each with its own payload, at version one |
| LiveState.LiveState.Apply | crates/agent-share-wasm-client/src/live_state.rs:59-121 | the object refines the table: index a bijection, slots aligned with live files, encoding current; directories and live files are those scanned; true exactly when either differed from before, else no field changed |
| LiveState.LiveState.PutOne | crates/agent-share-wasm-client/src/live_state.rs:67-90 | one entry folded in: its slot, the table after it, and whether it changed anything |
| LiveState.LiveState.ClearVanished | crates/agent-share-wasm-client/src/live_state.rs:92-107 | every live slot the scan no longer names becomes a tombstone, nothing else changes |
| LiveState.LiveState.Restore | crates/agent-share-wasm-client/src/live_state.rs:153-160 | every field is put back |
| LiveState.LiveState.Update | crates/agent-share-wasm-client/src/produce.rs:520-540 | a rescan that encodes past the cap is undone exactly; otherwise it is published |
| LiveState.LiveState.Slot | crates/agent-share-wasm-client/src/live_state.rs:133-136 | the payload of a live slot, nothing for a tombstone or past the end |
| LiveState.DedupeFirstWins | crates/agent-share-wasm-client/src/live_state.rs:187-197 | the seen-set loop computes the first-wins listing |
| LiveState.CompareDirs | crates/agent-share-wasm-client/src/live_state.rs:199-214 | the lookup loop computes the directory comparison |
| LiveTree.FilesAreRebuilt | crates/agent-share/src/mount/live.rs:429-477 | folding the producer's delta into the old tree always gives the published file list, slot by slot |
| LiveTree.DeltaIsTheDifference | crates/agent-share/src/mount/live.rs:404-477 | the delta names exactly the directories and slots in which the tree published differs from the one before, and nothing else |
| LiveTree.DirsAreRebuiltIff | crates/agent-share/src/mount/live.rs:404-427 | folding the delta gives the published directory list if and only if that names the directories that stay first, in their old order |
| LiveTree.DeltaRebuildsIff | crates/agent-share/src/mount/live.rs:397-489 | the delta rebuilds the published tree under exactly that condition, for any rescan |
| LiveTree.NewAheadOfOld | crates/agent-share/src/mount/scan.rs:30 | from one directory to two, the new one sorting first, a follower rebuilds them in the wrong order |
| LiveTree.HonestDeltaIsBelievedIff | crates/agent-share/src/mount/live.rs:404-505 | a follower holding the tree before a rescan believes the signed delta of it, and then holds exactly the published tree, if and only if the directories keep their order |
| EndToEnd.HistoryGrows | crates/agent-share-wasm-client/src/live_state.rs:55-121 | over any run of rescans slots only gain paths, versions never fall, and one version is one view |
| EndToEnd.HistoriesGoOn | crates/agent-share-wasm-client/src/live_state.rs:55-121 | a history starts with any well-formed view and goes on with any rescan that fits the wire |
| EndToEnd.ProducersPublishOncePerVersion | crates/agent-share-wasm-client/src/live_state.rs:109-120 | every run of a producer meets the hypothesis of convergence: one manifest per version |
| EndToEnd.FollowersAgree | crates/agent-share-proto/src/manifest.rs:168-216 | followers of a producer that were sent the same frames hold the same version and bytes |
| EndToEnd.NewestIsHeld | crates/agent-share-proto/src/manifest.rs:168-216 | a follower still running when the producer's newest whole frame came holds exactly the newest view, whatever else its feed carries before or after |
| EndToEnd.LastScanIsSeen | crates/agent-share-wasm-client/src/live_state.rs:59-121 | such a follower decodes a tree with exactly the directories and live files of the producer's last rescan |
| EndToEnd.MixedFollowersAgree | crates/agent-share-proto/src/manifest.rs:168-216 | two followers of different mixed feeds, each still running when the newest whole frame came, hold the same version and bytes |
| EndToEnd.HeldIsAView | crates/agent-share-proto/src/manifest.rs:140-216 | whatever a follower holds after any frames is one of the producer's own views |
| EndToEnd.ViewsKeepTheirSlots | crates/agent-share-wasm-client/src/live_state.rs:12-18 | in every view each slot is the path it belongs to for ever, or a tombstone |
| EndToEnd.ReadAddressesAreStable | crates/agent-share-wasm-client/src/live_state.rs:12-18 | over every run of rescans and frames, at any two moments a follower's slots belong to the same paths and its list never shrinks |
| EndToEnd.SeederFramesAreRead | crates/agent-share-mount/src/seed.rs:391-402 | the frame a seeder sends for an envelope is read by every follower as that envelope, and believed unless behind |
| Chunks.FullCount | crates/agent-share-mount/src/seed.rs:369-378 | counting a coverage against the row tells exactly whether all of it is held |
| Chunks.ChunksTile | crates/agent-share-mount/src/seed.rs:438-455 | chunks of 64 KiB lie end to end, and the last ends with the file |
| Seeder.NeverShort | crates/agent-share-mount/src/seed.rs:425-462 | a read answers the whole range or nothing, whatever the store holds |
| Seeder.ReadsAreExact | crates/agent-share-mount/src/seed.rs:408-462 | a known slot answers exactly the file's bytes of the range when the touched chunks are held, else refuses empty with one hole report |
| Seeder.CompleteSlotsNeverRefuse | crates/agent-share-mount/src/seed.rs:283-326 | a slot listed as complete answers every in-cap read |
| Seeder.CompleteIsExact | crates/agent-share-mount/src/seed.rs:356-378 | a slot counts as complete exactly when all its chunks are in a store that knows its map, or it has none |
| Seeder.AdoptAgreesWithRebuild | crates/agent-share-mount/src/seed.rs:133-195 | adopting a row keeps the lookup tables equal to a rebuild exactly when it orphans nothing of a row it replaces; at a new slot always |
| Seeder.AdoptedAnswersAsRebuilt | crates/agent-share-mount/src/seed.rs:464-494 | a row adopted at a new slot is answered for, on chunk, map and have requests, as a rebuild would |
| Seeder.ChunksAreExact | crates/agent-share-mount/src/seed.rs:469-482 | a chunk request for an address of a file of the share is answered with the file's own bytes of that chunk exactly when they are stored; an address of no row never |
| Seeder.HoldingsAreExact | crates/agent-share-mount/src/seed.rs:484-494 | a have request for a file of the share is answered with exactly the positions whose chunks are stored, for a row the store knows |
| Seeder.Seeder.constructor | crates/agent-share-mount/src/seed.rs:108-117 | a new seeder knows nothing |
| Seeder.Seeder.Update | crates/agent-share-mount/src/seed.rs:133-167 | tables are rebuilt exactly; each live watcher gets one frame if and only if the envelope changed; every watcher's last frame carries the current envelope and no two in a row are equal |
| Seeder.Seeder.Adopt | crates/agent-share-mount/src/seed.rs:187-195 | one row is added to rows and tables, and watchers hear nothing |
| Seeder.Seeder.Subscribe | crates/agent-share-mount/src/seed.rs:391-402 | a subscriber starts with the current envelope, or is refused when there is none |
| Seeder.Seeder.AnswerRead | crates/agent-share-mount/src/seed.rs:408-462 | the moving-cursor loop answers what the read law says, and reports a hole exactly when it should; an unknown slot and an overlong request are refused unreported |
| Seeder.Seeder.Holes | crates/agent-share-mount/src/seed.rs:239-243 | a hole feed starts empty and replaces an earlier one |
| Seeder.Seeder.AnswerChunk | crates/agent-share-mount/src/seed.rs:469-482 | a chunk is answered only if the share references it and the store has it, with the bytes stored under its address |
| Seeder.MapAnswersAreLastGiven | crates/agent-share-mount/src/seed.rs:464-467 | after an update and any run of adoptions a map request gets the last row adopted for its slot, else the updated one, and every chunk and root of a row so answered is in scope |
| Seeder.Seeder.AnswerHave | crates/agent-share-mount/src/seed.rs:484-494 | a coverage is answered only for a root of this share, and is exactly what is stored of its row |
| Seeder.Seeder.CompleteSlots | crates/agent-share-mount/src/seed.rs:297-326 | each complete slot once, in ascending order, and no other |
| Seeder.Seeder.Holds | crates/agent-share-mount/src/seed.rs:337-346 | a slot is held when it has a row, and every chunk of it is in a store that knows the row, or it has no chunk and the store does not know it |
| Seeder.Broadcast | crates/agent-share-mount/src/seed.rs:162-166 | every listening watcher gets the frame, and only those are kept |
| Seeder.ReadRange | crates/agent-share-mount/src/seed.rs:429-461 | the cursor loop computes the chunk-by-chunk read |
| Seeder.BuildTables | crates/agent-share-mount/src/seed.rs:134-139 | the loop over rows builds tables that answer for those rows and nothing else |
| Swarm.PlanConserves | crates/agent-share-wasm-client/src/swarm.rs:70-112 | as multisets, assigned plus unheld is what was missing; unheld is exactly what nobody holds, ascending |
| Swarm.UnheldInWantedOrderIff | crates/agent-share-wasm-client/src/swarm.rs:50-56 | unheld is in the order wanted if and only if the positions nobody holds were wanted in ascending order, as they are whenever everything was |
| Swarm.UnheldCanLeaveWantedOrder | crates/agent-share-wasm-client/src/swarm.rs:100-101 | a concrete plan whose unheld positions are not in the order wanted |
| Swarm.PlanIsRarestFirst | crates/agent-share-wasm-client/src/swarm.rs:71-99 | a peer gets only what it holds, its queue ordered by rarity and then by wanted order; peers are in order and never idle |
| Swarm.PlanIsFair | crates/agent-share-wasm-client/src/swarm.rs:89-99 | every other holder of a peer's last chunk ends with at least its load minus one |
| Swarm.SortedIsOrdered | crates/agent-share-wasm-client/src/swarm.rs:84-87 | the stable sort orders by rarity with wanted order as the tie and loses nothing |
| Swarm.MakePlan | crates/agent-share-wasm-client/src/swarm.rs:70-112 | the loops compute the plan those laws are about |
| Swarm.HandOut | crates/agent-share-wasm-client/src/swarm.rs:89-99 | loads, queues and unheld after the assignment loop are those of the assignment |
| Swarm.PickPeer | crates/agent-share-wasm-client/src/swarm.rs:93-96 | the least-loaded holder, the lower index on a tie |
| Swarm.FindHolders | crates/agent-share-wasm-client/src/swarm.rs:71-82 | the peers whose coverage contains a position, in order |
| Fetch.DrainedSplits | crates/agent-share-wasm-client/src/lib.rs:1958-2000 | whatever a peer answers, got and missed split its positions, each exactly once |
| Fetch.DrainedIsVerified | crates/agent-share-wasm-client/src/lib.rs:1976-1979 | what was got hashes to its address, and a peer whose connection holds misses nothing it answers well |
| Fetch.DrainQueue | crates/agent-share-wasm-client/src/lib.rs:1963-2000 | the loop keeps good answers until the first break and misses everything after it |
| Fetch.BreakEndsTheQueue | crates/agent-share-wasm-client/src/lib.rs:1976-1998 | a connection that breaks ends its queue: what came before is kept, the rest is missed |
| Fetch.TrueHomeServes | crates/agent-share-wasm-client/src/lib.rs:2002-2050 | a home that is up and reads the file truthfully, in pieces of any size, always supplies a chunk |
| Fetch.HomeAnswersFirst | crates/agent-share-wasm-client/src/lib.rs:2002-2024 | a chunk home answers well is taken without a range read, and a broken connection is not tried again |
| Fetch.ReadExactRange | crates/agent-share-wasm-client/src/lib.rs:2027-2050 | the loop reads on until the range is there, and fails on an error or an empty piece |
| Fetch.FetchOrRead | crates/agent-share-wasm-client/src/lib.rs:2002-2024 | a chunk by address, else as a range, and never bytes that do not hash to the address |
| Fetch.UsablePeers | crates/agent-share-wasm-client/src/lib.rs:1886-1897 | the peers kept are those whose claimed length matches the row, in order, each with the positions it claims below it |
| Fetch.CoveragesAreClaims | crates/agent-share-wasm-client/src/lib.rs:2996-3003 | a kept peer's coverage is exactly what it claims below the row's length |
| Fetch.UsableInOrder | crates/agent-share-wasm-client/src/lib.rs:1886-1890 | peers are kept in the order they come |
| Fetch.DrainSwarm | crates/agent-share-wasm-client/src/lib.rs:1899-1936 | the planned queues together deliver or miss every missing position |
| Fetch.HomeIsNotNeeded | crates/agent-share-wasm-client/src/lib.rs:1859-1956 | if every missing chunk is claimed by a peer that answered for a row of this length, and peers deliver what they claim, the fetch succeeds with what they deliver, whatever home does |
| Fetch.OneSeederSuffices | crates/agent-share-wasm-client/src/lib.rs:1859-1956 | one peer that claims and serves the whole file is enough, whatever home does |
| Fetch.MisfitsAreIgnored | crates/agent-share-wasm-client/src/lib.rs:2996-3003 | a peer that did not answer, or answered for a row of another length, changes neither the result nor the store |
| Fetch.StoredIsSound | crates/agent-share-wasm-client/src/lib.rs:1929-1934 | storing verified chunks keeps every stored chunk at its address and removes none |
| Fetch.FetchLeft | crates/agent-share-wasm-client/src/lib.rs:1938-1955 | home fetches what is left; a failure is home's, on a position whose chunk is not stored |
| Fetch.FetchMissing | crates/agent-share-wasm-client/src/lib.rs:1859-1956 | for any peers: only wanted, verified chunks are stored, the tally is what was stored, success means every missing chunk is stored, a failure is home's on one that is not, and there is none if the swarm covers everything |
| Base64.DecodesBack | crates/agent-share-proto/src/serving.rs:62-104 | unpadded base64 (sections 3.2 and 4 of RFC 4648) decodes to the bytes encoded, and its length is four symbols for three bytes, rounded up |
| Base64.FullGroup | crates/agent-share-proto/src/serving.rs:65-104 | a group of three bytes decodes to itself in front of any text |
| Base64.CutsArePrefixes | crates/agent-share-proto/src/serving.rs:82-104 | decoding a cut text gives a prefix of the bytes |
| Base64.OnlySymbols | crates/agent-share-proto/src/serving.rs:62-80 | only alphabet symbols are written |
| Base64.SymbolsAreTheAlphabet | crates/agent-share-proto/src/serving.rs:62 | the standard alphabet in its order |
| Base64.GroupsFromTheLeft | crates/agent-share-proto/src/serving.rs:65-80 | bits are taken from the left, six to a symbol, unpadded |
| Base64.ToBase64 | crates/agent-share-proto/src/serving.rs:65-80 | the shifting loop writes that encoding |
| Base64.FromBase64 | crates/agent-share-proto/src/serving.rs:82-104 | the loop over a register that wraps at 32 bits and is never masked decodes all the same; an unknown symbol ends it |
| Serving.AvailabilityRoundTrips | crates/agent-share-proto/src/serving.rs:106-244 | for every held set below the size: a published field is within 512 characters and claims exactly that set, and one is published unless the set is empty or the tree too large for a bitmap |
| Serving.FieldIsExactIff | crates/agent-share-proto/src/serving.rs:117-244 | for any tree size and any held indices, the field published is exact if and only if they are not as many as the slots and their runs fit the cap, or all of them are below a size that fits 32 bits |
| Serving.CutBitmapClaimsLess | crates/agent-share-proto/src/serving.rs:82-104 | a bitmap field cut anywhere claims only slots the whole one claims |
| Serving.OrderAndRepeatsAreImmaterial | crates/agent-share-proto/src/serving.rs:106-123 | neither order nor repeats of the held list change what is published |
| Serving.RunsSayWhatIsHeld | crates/agent-share-proto/src/serving.rs:129-153 | parsing the run list of a sorted set says exactly its members |
| Serving.DecimalReadsBack | crates/agent-share-proto/src/serving.rs:138-142 | a number in decimal reads back |
| Serving.SpacesAreTrimmed | crates/agent-share-proto/src/serving.rs:199-201 | spaces around a field, or around a run, change nothing |
| Serving.RunsAreIndependent | crates/agent-share-proto/src/serving.rs:218-238 | a field claims what any one of its runs claims, whatever the others are |
| Serving.RunSaysItsRange | crates/agent-share-proto/src/serving.rs:223-237 | a run claims the slots between its two numbers, or its one number, and nothing when one cannot be read |
| Serving.ClaimsAreBounded | crates/agent-share-proto/src/serving.rs:199-216 | whatever a field says, a reader believes only slots a u32 can name, and from a star or a bitmap only slots of the tree |
| Serving.NumbersParse | crates/agent-share-proto/src/serving.rs:225-236 | a number may carry a plus sign, and nothing else that is no digit |
| Serving.FieldForms | crates/agent-share-proto/src/serving.rs:12-18 | the three forms by example: a star for everything, runs with dashes and commas, a tilde before a bitmap |
| Serving.SplitAtMark | crates/agent-share-proto/src/serving.rs:219-224 | splitting at a mark the piece before does not contain |
| Serving.MarkedAllSays | crates/agent-share-proto/src/serving.rs:176-184 | setting bits one after another marks exactly the slots set |
| Serving.EncodeServing | crates/agent-share-proto/src/serving.rs:117-164 | the encoder publishes the star, the runs if they fit, or the bitmap |
| Serving.WriteRuns | crates/agent-share-proto/src/serving.rs:129-153 | the run loop writes the run list, giving up exactly when it is past the cap |
| Serving.EncodeBitmap | crates/agent-share-proto/src/serving.rs:173-191 | the bitmap loop writes the tagged bitmap where one bit per slot fits |
| Serving.DecodeServing | crates/agent-share-proto/src/serving.rs:199-244 | the decoder lists exactly the slots a field claims, once each, ascending |
| Ticket.TicketRoundTripsIff | crates/agent-share-proto/src/ticket.rs:156-262 | every ticket the encoder writes decodes to itself if and only if its lookups are within the decoder's bounds and its tail drops nothing; past those bounds it does not decode at all |
| Ticket.SecondFlagKeepsTheAuthor | crates/agent-share-proto/src/ticket.rs:47 | a ticket read back keeps its author exactly when the bit of weight two is set, whatever the other bits are, and everything else it was written with |
| Ticket.SeventeenRungs | crates/agent-share-proto/src/lookup.rs:135-143 | for any parser, any URL it prints within the cap and any address: the ticket with that URL seventeen times is written, and nobody can decode it |
| Ticket.LookupsReadBack | crates/agent-share-proto/src/lookup.rs:89-159 | of everything the encoder writes (up to 255 rungs of up to 65535 bytes), exactly the lookups with one to sixteen rungs of at most 512 bytes read back, taking their own bytes whatever follows; the rest are refused |
| Ticket.OversizeRungIsRefused | crates/agent-share-proto/src/lookup.rs:144-156 | one URL past 512 bytes spoils its ladder, wherever it stands |
| Ticket.LookupsAreSelfDelimiting | crates/agent-share-proto/src/lookup.rs:121-159 | any accepted lookups, canonical or not, depend on no byte past the ones they take |
| Ticket.CutLookupsAreRefused | crates/agent-share-proto/src/lookup.rs:121-159 | cutting accepted lookups short is always refused |
| Ticket.FlagsSay | crates/agent-share-proto/src/lookup.rs:121-143 | what each bit of a lookups byte says whatever the others are; a ladder bit without the relay bit is refused |
| Ticket.AppendingIsInvisibleIff | crates/agent-share-proto/src/ticket.rs:219-262 | appended bytes never change what an accepted ticket decodes to if and only if its tail is complete |
| Ticket.EncodedTailIsComplete | crates/agent-share-proto/src/ticket.rs:169-190 | which encoded tickets are complete, and that a zero flags byte completes a plain one without changing it |
| Ticket.FlagsMayStandAlone | crates/agent-share-proto/src/ticket.rs:219-262 | a tail that stops before the mesh id's length keeps its flags and has neither mesh id nor author |
| Ticket.EncodeInto | crates/agent-share-proto/src/lookup.rs:89-115 | the writer appends exactly the encoding to the caller's buffer |
| Ticket.DecodeFrom | crates/agent-share-proto/src/lookup.rs:121-159 | the reader moves the caller's position past the lookups, or refuses |
| Ticket.ReadLadder | crates/agent-share-proto/src/lookup.rs:144-156 | the ladder loop reads rung after rung until the first one refused |
| Ticket.ReadU16 | crates/agent-share-proto/src/lookup.rs:166-171 | two bytes, little-endian, or nothing |
| Ticket.Encode | crates/agent-share-proto/src/ticket.rs:156-192 | the growing payload is the ticket's encoding |
| Ticket.Decode | crates/agent-share-proto/src/ticket.rs:198-262 | the reader with its moving position accepts and returns exactly what the layout says |
| Layout.NumbersAreLittleEndian | crates/agent-share-proto/src/manifest.rs:573-589 | numbers are little-endian, byte by byte |
| Layout.DirLayout | crates/agent-share-proto/src/manifest.rs:242-246 | a directory is a path behind two bytes of length, four bytes of mode and eight of time |
| Layout.FileLayout | crates/agent-share-proto/src/manifest.rs:252-257 | a file is a path, eight bytes of size, four of mode and eight of time |
| Layout.TreeLayout | crates/agent-share-proto/src/manifest.rs:235-259 | a manifest is its counted directories and then its counted files |
| Layout.DeltaLayout | crates/agent-share-proto/src/manifest.rs:391-395 | a delta is directories upserted and removed, files upserted behind their slots, and slots removed, each counted |
| Layout.EnvelopeLayout | crates/agent-share-proto/src/authorship.rs:75-81 | an envelope is version, signature and manifest; what is signed is a fixed text, version and manifest |
| Layout.SinceLayout | crates/agent-share-proto/src/framing.rs:311-312 | a catch-up answer is target, signature and counted deltas behind their lengths |
| Layout.ChunkMapLayout | crates/agent-share-proto/src/framing.rs:431-452 | a chunk map is root, size and counted 32-byte addresses |
| Layout.HaveLayout | crates/agent-share-proto/src/framing.rs:534-545 | a have answer is a count and a bitmap of exactly the bytes its bits need |
| Layout.LookupsLayout | crates/agent-share-proto/src/lookup.rs:82-115 | which bit of the flags says what, and that a ladder is its length and its URLs |
| Layout.TicketLayout | crates/agent-share-proto/src/ticket.rs:156-192 | a ticket is secret, kind, lookups and address, and unless its flags are zero then flags, mesh id and author |
| WaitingMesh.RunsAreSafe | crates/agent-share-wasm-client/src/lib.rs:4141-4259 | nothing held is retired and nothing minted is lost: the invariant that says so is kept by every interleaving of steps, from any state that has it |
| WaitingMesh.NobodyIsCutOff | crates/agent-share-wasm-client/src/lib.rs:4141-4259 | after any run no membership a client or attempt holds is retired, what the registry names is live, and whatever was minted is registered, owed a farewell or retired |
| WaitingMesh.OneLiveMembershipPerShare | crates/agent-share-wasm-client/src/lib.rs:3882-3907 | however many attempts mint for a share, at most one membership is live and not handed back |
| WaitingMesh.SafeMeansUnheld | crates/agent-share-wasm-client/src/lib.rs:3909-3926 | the reference count says retirable exactly when nobody but the registry holds the membership |
| WaitingMesh.LastHolderCollectsIff | crates/agent-share-wasm-client/src/lib.rs:1016-1052 | when the last holder of a marked duplicate lets go it is retired if and only if that holder is a client |
| WaitingMesh.StrandedDuplicate | crates/agent-share-wasm-client/src/lib.rs:784-808 | a concrete run, with a second attempt in flight while the client leaves, after which a marked duplicate stays registered with nobody holding it |
| WaitingMesh.NextOriginWinCollects | crates/agent-share-wasm-client/src/lib.rs:795-808 | the next origin win of its share retires it |
| WaitingMesh.UnmarkedOutlivesItsClients | crates/agent-share-wasm-client/src/lib.rs:1026-1032 | leaving an unmarked membership retires nothing and keeps it registered |
| WaitingMesh.LeavingRetires | crates/agent-share-wasm-client/src/lib.rs:1001-1057 | a departing client's own membership is retired, a shared one exactly when it was marked and this was its last holder; everybody else holds what they held |
| WaitingMesh.OriginWinRetiresOrMarks | crates/agent-share-wasm-client/src/lib.rs:795-808 | an origin win retires the share's membership if nobody holds it, and otherwise marks it |
| WaitingMesh.JoinIsHeld | crates/agent-share-wasm-client/src/lib.rs:1002-1008 | a join that lands in time is held by its own client, and nothing is retired |
| WaitingMesh.LateJoinIsRetired | crates/agent-share-wasm-client/src/lib.rs:1002-1008 | a join that lands after its client was released is retired at once and never held |
| WaitingMesh.Page.ClaimWaitingMesh | crates/agent-share-wasm-client/src/lib.rs:3893-3907 | first come takes the share's place; later ones get the winner; counts follow |
| WaitingMesh.Page.Lookup | crates/agent-share-wasm-client/src/lib.rs:4141-4144 | an attempt clones the share's entry if there is one |
| WaitingMesh.Page.AdoptVetted | crates/agent-share-wasm-client/src/lib.rs:4743-4748 | the winner's client holds the membership too |
| WaitingMesh.Page.OriginAnswered | crates/agent-share-wasm-client/src/lib.rs:795-808 | with strong counts for holders: remove and retire, or mark |
| WaitingMesh.Page.LeaveMesh | crates/agent-share-wasm-client/src/lib.rs:1001-1057 | a client lets go first and then collects a marked duplicate, or leaves a membership of its own |
| KnownSeeders.RosterTellsItsHistory | crates/agent-share-wasm-client/src/lib.rs:3400-3445 | over every run: at most four records, newest vote first, each with the clock and tree of its last vote and as many strikes as misses since it last answered, below three |
| KnownSeeders.EndpointsAreDistinct | crates/agent-share-wasm-client/src/lib.rs:3407-3413 | no endpoint is remembered twice |
| KnownSeeders.ThirdMissDrops | crates/agent-share-wasm-client/src/lib.rs:3558-3575 | a failed lane drops a record it read exactly when that is its third miss in a row |
| KnownSeeders.LoadedIff | crates/agent-share-wasm-client/src/lib.rs:3400-3405 | a record is read back for a day after its vote, and no longer |
| KnownSeeders.VoteKeepsTheOthers | crates/agent-share-wasm-client/src/lib.rs:3407-3413 | a vote comes first and replaces its endpoint's record; every other record stays but the oldest of a full roster |
| KnownSeeders.ForgetKeepsTheRest | crates/agent-share-wasm-client/src/lib.rs:3520-3524 | forgetting takes those endpoints off and leaves the other records as they are |
| KnownSeeders.WinKeepsEverybody | crates/agent-share-wasm-client/src/lib.rs:4585-4607 | a lane somebody won takes nobody off |
| KnownSeeders.LaneIsGood | crates/agent-share-wasm-client/src/lib.rs:4585-4607 | judging a lane, won or lost, keeps order, clocks and trees and counts what it saw |
| IpCountry.SplittingConservesIff | scripts/build-ip-country.ts:87-98 | splitting a range over blocks keeps its address count if and only if the range ends inside the 32-bit space |
| IpCountry.OverlapIsTheBlockShare | scripts/build-ip-country.ts:90-91 | the bounds of a share are exactly the range's addresses in that block |
| IpCountry.Builder.AddRange | scripts/build-ip-country.ts:87-98 | one row adds its share to its country in every block it touches, to nothing else, and to the total what the split places |
| IpCountry.PickDominant | scripts/build-ip-country.ts:114-123 | the first of the heaviest countries of a block, and the block's sum |
| IpCountry.AttributedIsPart | scripts/build-ip-country.ts:113-128 | addresses attributed never exceed addresses counted |
| IpCountry.FirstSeenFirst | scripts/build-ip-country.ts:87-98 | a country new to a block goes behind those seen before, which is what ties are broken by |
| IpCountry.BuildTable | scripts/build-ip-country.ts:106-128 | for at most 254 countries, past which the script stops: each covered block names a maximal-weight country, others are zero; the three totals are right in any visiting order |
| IpCountry.VarintReadsBack | scripts/build-ip-country.ts:134-144 | a run length reads back from anywhere in a stream |
| IpCountry.VarintLayout | scripts/build-ip-country.ts:134-144 | seven bits to a byte, low ones first, a high bit on all but the last |
| IpCountry.RunsAreMaximal | scripts/build-ip-country.ts:146-154 | run lengths sum to the table, none is empty, neighbouring runs differ |
| IpCountry.TableReadsBack | scripts/build-ip-country.ts:146-154 | reading the packed stream gives the whole table back |
| IpCountry.WriteVarint | scripts/build-ip-country.ts:134-144 | the loop writes the run length |
| IpCountry.PackTable | scripts/build-ip-country.ts:146-154 | the run loop packs the table |
| IpCountry.LoadTable | packages/agent-share-web/src/components/tech-info/country-flag/index.ts:181-205 | the page's loop fills the table the stream describes |

## Left out

- Argon2id, SHA-256, BLAKE3, Ed25519 and Base58 internals: abstract predicates or injective functions.
- QUIC, WebRTC, ICE, relays, JSEP, timers and dial lanes: peers are arbitrary answers, steps interleave freely.
- IndexedDB, `localStorage`, NFS and the filesystem: the chunk store is a map that does not fail; a store error during a fetch, and a roster write the browser refuses, are not modelled.
- The token envelope around a ticket payload, JSON, relay URL and endpoint address texts: print and parse are assumed to undo each other on canonical texts.
- Request framing, response headers, read-status bytes, bench operations and stream dispatch: straight-line encoders that would add only easy members.
- `live_counts`, fingerprints, peer cards, link meters, the roster vote and `judge_adopted_tree`: small folds without state.
- Page shutdown (`shutdown_mesh`) and an attempt dropped while the loser of a claim is saying goodbye: the handed-back membership is then counted as owed, not as retired.
- The registry files' text format and the sorting of country codes: rows and a list of distinct codes are inputs; `btoa` and `atob` are taken to undo each other.
- LiveState.LiveState.Apply: versions are unbounded numbers; reaching 2^64 rescans is not modelled.
- LiveState.LiveState.ClearVanished: the program collects vanished slots and then clears them in a second loop; one loop does both here, with the same result.
- The native producer's delta is modelled on values: the loops that collect it, the log of earlier deltas and the fall back to a whole frame past the cap are not.
- LiveTree.HonestDeltaIsBelievedIff: speaks of trees and deltas within the encoders' own bounds; past them the producer itself panics.
- Seeder.Seeder.AnswerRead: the store's contents are those at the time of the request; chunks evicted between two steps of one read are not modelled.
- Fetch.DrainSwarm: queues run one after another, where the program runs them together; they share nothing until all have ended.
- IpCountry.LoadTable: the 32-bit shifts of the page's reader are unbounded here, which differs only for run lengths no table of this size has.
