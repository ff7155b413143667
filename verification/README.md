# Verified models of the MetalBear data server

MetalBear is a personal data server for the AT Protocol. This project models its parts that carry state, wire formats or
loops worth proving, and proves what they promise. `dafny verify dfyconfig.toml` checks all of it.

Each part has a specification made of values and functions, theorems about it, and, where the program changes things step
by step, classes and loops proved equal to the specification.

- **Multipart video uploads** (`VideoStore`, `VideoRuns`, `VideoSafety`, `VideoFinish`, `VideoResults`, `VideoQuota`,
  `VideoObject`). Every region held under the mutex is one step; reading a part file during assembly, judging, storing the
  blob and committing are separate steps, so that everything else can happen between them. Runs are sequences of steps.
- **The firehose** (`EventLog`, `Firehose`, `Sequencer`). One log, one writer, retention, account purges and any number of
  subscribers with private cursors; subscribing is three steps (reading the log, checking the mark, registering).
- **Archives, CBOR and text encodings** (`Bytes`, `Division`, `Powers`, `KeyedSort`, `Cbor`, `CborRoundTrip`, `CborCanonical`,
  `CborCodec`, `Varint`, `Car`, `Base58`, `Base32`, `Der`).
- **The account context cache** (`AccountCache`, `AccountCacheResults`, `AccountCacheObject`). Both ways of unlinking a
  victim run on the same steps: as the scan is written, and after the true list predecessor.
- **Dynamic DNS updates** (`DnsWire`, `DnsCanonical`, `Rfc2136`, `Rfc2136Verify`, `Rfc2136Object`, `DnsReply`). What is sent
  is judged by a parser and a signature check written from the standards, not by the builder.
- **WebSocket frames, the feed splice, label pages, configuration files** (`FrameReader`, `FeedSplice`, `Labels`,
  `LabelsQuery`, `CText`, `Config`, `ConfigRoundTrip`, `ConfigExact`).

Hashes and signatures are function parameters. The content hash of blobs is assumed injective where a theorem speaks of
blobs, and the MAC is any function with 32 octets of result.

Where the code and what it promises differ, the model follows the code:

- The CBOR decoder reads additional information 20 as true and 21 as false while the encoder writes them the other way
  round (section 3.3 of RFC 8949 assigns 20 to false). Round trips hold exactly for values without booleans.
- The eviction scan of the account cache remembers the last idle entry before a victim, not its list predecessor, and can
  drop referenced entries. What that loses, and when, is stated exactly; the promises of the header hold for the true
  predecessor.
- The base-58 digit search finds the terminator of its alphabet, so a NUL character counts as a digit. Accepted texts come
  back exactly when they hold none.
- The verifier adds 64-bit lengths to positions before it compares them with the end. Where a sum wraps, a string length
  ends the program with an exception, a block length is reported as a missing identifier, and a digest length can be accepted
  with the identifier cut short.
- `get` records every acquisition in the thread's buffer, and a release by hand leaves it there. A thread that does both gives
  its reference back twice, and the second time it can be another thread's.
- Retention with `min_events` of zero or less can empty a log that promised to keep its newest number.
- The retention mark is the cutoff of a pass and not the largest number it deleted, so only one direction of the
  OutdatedCursor notice holds. When a subscriber is warned that lost nothing is stated exactly.
- A TSIG key name is cut at 255 characters in the digest but not on the wire.
- The comment scan of configuration files counts escaped quotes, so a text with a quote before a number sign can be cut,
  sometimes without an error. It does not know apostrophes, so in those a number sign survives only behind a quote.
- The configuration loader keeps 64 texts. A load with more succeeds, and a text beyond those, even one for a field that had a
  value before, leaves its field without one.
- Loaded texts are handed out as C strings, so a zero octet ends them.
- The part rows of an expired upload stay in the table although its files are removed.
- `metalbear_account_cache_set_max_resident` is documented as a bound on idle contexts; the code bounds the total.

## Model

| member | source | states |
|---|---|---|
| VideoResults.CompletedIsWhole | cpp/metalbear/video_upload.cpp:232-308 | In every run of starts, part writers, the stages of finish, aborts, expiry and restarts, a COMPLETED upload has a blob that is its committed parts 1 to n in order, exactly the declared size long, and it begins like an MP4 file |
| VideoResults.FinishingIsExclusive | cpp/metalbear/video_upload.cpp:579-626 | While an upload is FINISHING nobody writes to it and exactly one call is finishing it |
| VideoResults.RowCountDecides | cpp/metalbear/video_upload.cpp:601-616 | At every moment the number of part rows equals the part count exactly when every part 1 to n has a row |
| VideoResults.AssemblyNeverFails | cpp/metalbear/video_upload.cpp:232-308 | Although the lock is free while parts are read, no part is ever missing, too long or too short: the verdict depends on the MP4 header alone |
| VideoResults.StatesMoveForward | cpp/metalbear/video_upload.cpp:579-737 | COMPLETED, FAILED, ABORTED and EXPIRED are never left, and a FINISHING upload is moved on only by the call that marked it or by a restart |
| VideoResults.RunKeeps | cpp/metalbear/video_upload.cpp:365-737 | The joint invariant of tables, part files, active writers, finishing calls and blobs holds after every run |
| VideoFinish.RowCountComplete | cpp/metalbear/video_upload.cpp:601-616 | In any state satisfying the invariant, counting rows decides completeness |
| VideoQuota.QuotaFromTheStart | cpp/metalbear/video_upload.cpp:380-414 | Under a clock that does not go back, uploads counted in the last 86400 seconds never exceed 1073741824 octets, 100 videos or 4 open sessions |
| VideoQuota.QuotaHolds | cpp/metalbear/video_upload.cpp:199-222 | From any state within the quota every run stays within it |
| VideoQuota.SweepBringsIntoWindow | cpp/metalbear/video_upload.cpp:109-127 | After a sweep no CREATED session lies outside the one-day window |
| VideoQuota.PartsAddUp | cpp/metalbear/video_upload.cpp:455-463 | Every upload of every run has at most 60 parts, each of 1 to 5000000 octets, adding up to its declared size |
| VideoStore.PartSizesInRange | cpp/metalbear/video_upload.cpp:455-463 | Part counts and part sizes stay in range for every permitted size |
| VideoStore.PartSizesSum | cpp/metalbear/video_upload.cpp:455-463 | The expected part sizes sum to the declared size |
| VideoObject.UploadStore.constructor | cpp/metalbear/video_upload.cpp:314-358 | Opening takes interrupted finishes back, forgets writers and sweeps |
| VideoObject.UploadStore.ExpireSessions | cpp/metalbear/video_upload.cpp:109-127 | The sweep: due sessions expire and lose their files, one directory after the other; their part rows stay |
| VideoObject.UploadStore.StartUpload | cpp/metalbear/video_upload.cpp:365-436 | Each refusal in its order, the quota after a sweep, and the new row |
| VideoObject.UploadStore.BeginPart | cpp/metalbear/video_upload.cpp:438-507 | Which part may be written, with which length, by one writer at a time |
| VideoObject.UploadStore.MarkFinishing | cpp/metalbear/video_upload.cpp:579-626 | The first locked region of finish, and exactly the missing part numbers when it refuses |
| VideoObject.UploadStore.CommitFinish | cpp/metalbear/video_upload.cpp:637-679 | The last locked region of finish for each outcome |
| VideoObject.UploadStore.AbortUpload | cpp/metalbear/video_upload.cpp:699-737 | Aborting, and when it is refused |
| VideoObject.PartWriter.Write | cpp/metalbear/video_upload.cpp:509-521 | A chunk is taken only if the part stays within its expected length |
| VideoObject.PartWriter.Finish | cpp/metalbear/video_upload.cpp:523-562 | A complete part is committed under the lock if its upload is still CREATED |
| VideoObject.PartWriter.Free | cpp/metalbear/video_upload.cpp:564-577 | Freeing a writer makes its part available to another one, whatever was written |
| VideoObject.AssembleUpload | cpp/metalbear/video_upload.cpp:232-308 | The part loop with its 64 KiB blocks accumulates the concatenation of the files and gives the specified verdict |
| VideoObject.CopyBlocks | cpp/metalbear/video_upload.cpp:258-287 | The block loop over one file checks the running total before every block and judges the header on the first block of all |
| Firehose.Delivery | src/sequencer.c:644-788 | In every run a subscriber receives strictly increasing numbers above its start, and every number between its start and its cursor was delivered or deleted before it was passed |
| Firehose.CaughtUp | src/sequencer.c:599-631 | A subscriber that finds nothing more to read has been given, or has outlived, every number issued above its start |
| Firehose.StepKeeps | src/sequencer.c:129-216 | Every step of writer, retention, purge, subscribers and shutdown keeps the joint invariant |
| Firehose.ResumeIsAccepted | src/sequencer.c:817-819 | With retention keeping at least one event, a client resuming from any number ever delivered is not told FutureCursor |
| Firehose.KeepingNothingRefusesResume | src/sequencer.c:867-926 | With min_events of zero or less that promise fails exactly when the newest event is old enough to be deleted |
| Firehose.NumbersAreNew | src/sequencer.c:129-216 | No number is ever issued twice, over deletions and restarts, and each accepted append issues one |
| Firehose.GapIsAnnounced | src/sequencer.c:820-831 | An accepted subscriber whose cursor lies below a number that retention deleted is flagged OutdatedCursor |
| Firehose.UnflaggedMissesNothingOlder | src/sequencer.c:780-831 | A subscriber accepted with a cursor and not flagged misses, of everything it goes past, only numbers purged with an account and numbers retired after its check |
| Firehose.FlaggedExactly | src/sequencer.c:867-923 | After any pass a cursor is accepted and flagged if and only if it is not in the future and lies below the mark there was, or below the cutoff of a pass that deleted something |
| Firehose.FlaggedWithoutLossExactly | src/sequencer.c:92-106 | It is flagged although the pass deleted nothing above it if and only if, besides, every expired row is at or below it |
| Firehose.MarkIsDeletedExactly | src/sequencer.c:902-921 | The mark is itself a deleted number if and only if the cutoff is not behind the mark there was and the row numbered with the cutoff is there and old |
| Firehose.GapCanBeAnnouncedWithoutLoss | src/sequencer.c:92-106 | A run of the program, three appends and one pass, after which a subscriber that lost nothing is flagged |
| Firehose.ShutdownIsSafe | src/sequencer.c:975-986 | The number of active subscribers is the number of registered live workers, and the database is closed only when there is none |
| Firehose.ClosingIsLatched | src/sequencer.c:837-856 | Once closing is set no step but a restart clears it, stores an event or admits a subscriber |
| EventLog.Append | src/sequencer.c:129-216 | A new row gets a number above every number ever used; a frame that cannot be encoded changes nothing |
| EventLog.ReadNext | src/sequencer.c:599-631 | The next row behind a cursor is the one with the least number above it |
| EventLog.RetainMarks | src/sequencer.c:867-926 | Every number a retention pass deletes is at or below the mark it leaves, and the mark never moves back |
| EventLog.RetainKeepsNewest | src/sequencer.c:867-926 | The newest event survives a pass if and only if the call keeps at least one event or that event is too young |
| EventLog.PurgeLeavesNewest | src/sequencer.c:928-973 | A purge leaves other accounts alone and of this account exactly the newest row |
| EventLog.PurgeKeepsNewest | src/sequencer.c:928-973 | A purge never lowers MAX(seq) and never empties a log |
| EventLog.SeedFloor | src/sequencer.c:296-336 | Opening an empty log lifts the number generator to the clock; a log with events is left alone |
| SequencerObject.Sequencer.AppendEvent | src/sequencer.c:129-216 | The append as it changes the object, refused once closing is set |
| SequencerObject.Sequencer.Retain | src/sequencer.c:867-926 | A pass deletes the rows that are both old enough and beyond the number to keep, and raises the mark if it deleted any |
| SequencerObject.Sequencer.PurgeAccount | src/sequencer.c:928-973 | The purge on the object, refused for an empty name, and the number of rows removed |
| SequencerObject.Sequencer.Register | src/sequencer.c:837-856 | A subscriber is admitted and counted only while closing is not set |
| SequencerObject.Sequencer.AccountMatches | src/sequencer.c:556-583 | The locked scan from the newest event back finds whether the last account event of this account has the wanted state |
| SequencerObject.Sequencer.ReconcileAccount | src/sequencer.c:552-586 | Scan and append are two locked regions: whatever happens to the log in between, a mismatch ends with this account, and no other, in the wanted state, unless closing has been set |
| SequencerObject.Sequencer.RepoMatches | src/sequencer.c:494-527 | The locked scan finds whether the last commit or sync event of this repository has its head revision |
| SequencerObject.Sequencer.ReconcileRepo | src/sequencer.c:474-550 | The same in two locked regions for the revision of a repository; one without a head is left alone |
| SequencerObject.Subscriber.NextFrame | src/sequencer.c:689-713 | The locked part of one round: closing comes before the log, which gives the row with the least number above the private cursor |
| SequencerObject.Subscriber.Deliver | src/sequencer.c:684-777 | Whatever log and latch other threads leave before each round, the delivery loop sends what the rounds read, up to closing or the first send that fails, and the cursor is the last number sent |
| SequencerObject.Subscriber.Serve | src/sequencer.c:780-856 | A whole subscription: flagged only below the mark, admitted only before closing, given what the rounds read from its start on, and counted off again at its end |
| SequencerObject.DeliveredAscends | src/sequencer.c:684-777 | Whatever happens to the log between rounds, the numbers sent ascend and lie above the start |
| SequencerObject.NothingSkipped | src/sequencer.c:684-777 | A number that is in the log in every round is not gone past without having been sent |
| SequencerObject.QuietDelivery | src/sequencer.c:684-777 | With nobody writing and every send succeeding, exactly the numbers above the start are sent |
| SequencerObject.NextAbove | src/sequencer.c:599-631 | What is read next is the first of the numbers above a cursor, and reading on from there gives the others |
| CborCanonical.DecodeOfEncode | tools/verify_repo_car.cpp:189-418 | For every value that fits the format, decoding its encoding gives the value with map entries in canonical order and booleans exchanged |
| CborCanonical.RoundTripExactlyWithoutBooleans | tools/verify_repo_car.cpp:189-418 | The round trip gives back the normalised value if and only if it holds no boolean |
| CborCanonical.BooleansAreExchanged | tools/verify_repo_car.cpp:321-328 | The encoder writes true as 0xf5 and false as 0xf4, the decoder reads them the other way round |
| CborCanonical.ReencodingExactly | tools/verify_repo_car.cpp:189-418 | Decoding and encoding again gives the same octets if and only if exchanging true and false changes nothing but the order of map entries, and so for every value without booleans |
| CborCanonical.ReencodingExactlyWithoutBooleans | tools/verify_repo_car.cpp:189-418 | For values whose map keys hold no boolean it does so if and only if there is no boolean at all |
| CborCanonical.KeysCanTradePlaces | tools/verify_repo_car.cpp:189-418 | A map with the keys true and false comes back unchanged: with boolean keys the stricter condition is not needed |
| CborCanonical.NormalizedMapIsSorted | tools/verify_repo_car.cpp:393-397 | Map entries come back length-first and then octet by octet (section 4.2.3 of RFC 8949) |
| CborCanonical.PermutedMapSameEncoding | tools/verify_repo_car.cpp:386-405 | The order in which map entries are given does not matter |
| CborCanonical.SameEncodingSameValue | tools/verify_repo_car.cpp:364-418 | Two values have the same encoding if and only if they normalise to the same value |
| CborCanonical.PrefixFree | tools/verify_repo_car.cpp:343-418 | No encoding is a proper prefix of another |
| CborCanonical.TrailingOctetsRefused | tools/verify_repo_car.cpp:194-203 | Octets after a complete item make decoding fail |
| CborCodec.DecodeValue | tools/verify_repo_car.cpp:189-341 | The cursor-moving decoder computes the specified result on any octets a string can hold, errors included, with the sum of position and length taken in 64 bits; a length that makes it wrap ends in the length_error of std::string |
| CborCodec.Decoder.Item | tools/verify_repo_car.cpp:247-340 | Each item is read from the cursor as specified and the cursor ends behind it; lengths near 2^64 get past the comparison as they do in the code, and throw |
| CborCodec.AnnouncedLengthThrows | tools/verify_repo_car.cpp:263-276 | A byte string that announces octets which are not there is reported as truncated, and from 2^64 - 9 octets on ends the program with an exception |
| CborCodec.Decoder.ReadBe | tools/verify_repo_car.cpp:216-222 | The loop reads a big-endian number of any width, or fails if the octets run out |
| CborCodec.Decoder.ArrayLoop | tools/verify_repo_car.cpp:283-296 | The element loop, stopping at the first error |
| CborCodec.Decoder.MapLoop | tools/verify_repo_car.cpp:297-311 | The entry loop, stopping at the first error |
| CborCodec.EncHead | tools/verify_repo_car.cpp:343-362 | The shortest head for every argument |
| CborCodec.CborEncode | tools/verify_repo_car.cpp:364-418 | The encoder appends exactly the canonical encoding to its buffer |
| CborCodec.EncodeMap | tools/verify_repo_car.cpp:386-405 | Keys are encoded, sorted and written with their values |
| Varint.VarintReadsBack | tools/verify_repo_car.cpp:94-120 | Reading inverts unsigned LEB128 for all values below 2^64 and takes exactly the octets written |
| Varint.Uvarint | tools/verify_repo_car.cpp:94-120 | The shifting loop computes the specified value or error, reads at most ten octets and never takes its last failure branch |
| Car.CarRoundTrip | tools/verify_repo_car.cpp:439-485 | Parsing a rendered archive gives back its header and blocks |
| Car.DistinctBlockTable | tools/verify_repo_car.cpp:454-485 | With distinct CIDs the block table has every block, under its own CID |
| Car.CidBytesInjective | tools/verify_repo_car.cpp:454-485 | Different CIDs have different octets |
| Car.SectionAgreesExactly | tools/verify_repo_car.cpp:454-483 | A block is taken as it is meant if and only if neither its length nor its digest length passes 64 bits when added to its position |
| Car.WrappedDigestIsAccepted | tools/verify_repo_car.cpp:439-485 | A whole archive that is accepted although its block announces a digest of 2^64 - 1 octets; the identifier is one octet short |
| Car.EveryOctetOnce | tools/verify_repo_car.cpp:439-485 | Whatever archive is accepted, its header and sections cover its octets once and completely |
| Car.ParseCarLoop | tools/verify_repo_car.cpp:439-485 | The parsing loop, its sums in 64 bits, computes the specified archive or error on any octets a string can hold; only for a header length that wraps does it stop where the code would go on |
| Base58.MulAddIsMinimal | tools/verify_repo_car.cpp:62-88 | The multiply-and-carry step yields the minimal big-endian octets of 58 times the value plus the digit |
| Base58.DecodeLoop | tools/verify_repo_car.cpp:62-88 | The carry loops compute the exact value in minimal octets behind one zero octet per leading 1 |
| Base58.DecodeOfEncode | tools/verify_repo_car.cpp:62-88 | Decoding inverts base-58 encoding of any octets |
| Base58.EncodeOfDecode | tools/verify_repo_car.cpp:62-88 | A valid text is the encoding of what it decodes to if and only if it holds no NUL character |
| Base58.DecodeInjective | tools/verify_repo_car.cpp:62-88 | Decoding is injective on texts without a NUL |
| Base58.NulIsADigit | tools/verify_repo_car.cpp:62-88 | A NUL character is taken for a digit of value 58, because the search finds the end of the alphabet |
| Base32.EncodeLoop | tools/verify_repo_car.cpp:44-60 | The 32-bit register, although it wraps, yields section 6 of RFC 4648 without padding, in lower case |
| Base32.CharactersReadBack | tools/verify_repo_car.cpp:44-60 | Reading the characters back five bits at a time gives the bits, filled with zeros |
| Base32.EncodeInjective | tools/verify_repo_car.cpp:44-60 | Different octets have different texts |
| Der.SignatureReadsBack | tools/verify_repo_car.cpp:922-926 | Any compact signature is rewritten as a DER SEQUENCE of two minimal non-negative INTEGERs of the same values |
| Der.EcdsaLoop | tools/verify_repo_car.cpp:896-926 | The loops skip leading zero octets, guard the sign bit and build that sequence |
| Der.IntegerReadsBack | tools/verify_repo_car.cpp:909-920 | Stripping zeros and guarding the sign bit keeps the value and gives a proper INTEGER |
| AccountCache.RunKeeps | src/account/account_cache.c:117-242 | In every run of lookups, insertions, releases and limit changes the books balance: one entry per DID, references counted, every context ever opened in exactly one place |
| AccountCacheResults.NeverClosedWhileHeld | src/account/account_cache.c:117-143 | No context is closed while somebody holds it, for the scan as written too |
| AccountCacheResults.CountersAreExact | src/account/account_cache.c:117-242 | idle_count counts the unreferenced entries exactly; total_count is the list length plus what was lost, and with the true predecessor just the list length; each refcount is the number of outstanding acquisitions |
| AccountCacheResults.OneContextPerAccount | src/account/account_cache.c:145-242 | With the true predecessor all holders of one account hold the one listed context |
| AccountCacheResults.HoldersShare | src/account/account_cache.c:145-242 | As written, two holders of one account share a context unless one of the two was lost |
| AccountCacheResults.NothingLeaks | src/account/account_cache.c:145-242 | With the true predecessor every context ever opened is listed, waiting or closed, exactly once |
| AccountCacheResults.EvictedExactly | src/account/account_cache.c:117-143 | An idle entry is evicted if and only if fewer idle entries are older than the cache is over budget |
| AccountCacheResults.EvictEnds | src/account/account_cache.c:117-143 | Eviction ends within budget or with nothing idle, and evicts no more than that needs |
| AccountCacheResults.BudgetHolds | src/account/account_cache.c:117-242 | From any state within budget, under any limit, every run that does not change the limit stays within budget or has nothing idle |
| AccountCacheResults.BudgetFromTheStart | src/account/account_cache.c:75-242 | So does every run of a cache that is given its limit, whichever, at the start |
| AccountCacheResults.BudgetSinceEviction | src/account/account_cache.c:75-242 | After any history of limits, from the next eviction on the cache is within budget or has nothing idle, until the limit is changed again |
| AccountCacheResults.SameVictims | src/account/account_cache.c:117-143 | However victims are unlinked, the same contexts are closed in the same order |
| AccountCacheResults.UnlinkAgrees | src/account/account_cache.c:117-136 | The remembered predecessor is the true one if and only if the victim is the head or follows an idle entry |
| AccountCacheResults.LostExactly | src/account/account_cache.c:117-143 | A referenced entry drops out of the list, unclosed, if and only if the first idle entry behind it is evicted; with the true predecessor none does |
| AccountCacheResults.FreshEntryLost | src/account/account_cache.c:210-216 | When the entry just pushed at the head is lost by the eviction that follows |
| AccountCacheResults.TwoContextsForOneAccount | src/account/account_cache.c:117-242 | A run of the code as written in which one account is open twice |
| AccountCacheResults.LossesUseUpTheBudget | src/account/account_cache.c:117-143 | Whatever limits were set before, once as many contexts are lost as the limit allows, a cache within budget keeps nothing idle any more |
| AccountCacheResults.LossesFromTheStart | src/account/account_cache.c:75-143 | So it is in every run of a cache that is given its limit at the start |
| AccountCacheObject.ContextCache.Scan | src/account/account_cache.c:119-129 | The pass over the list finds the oldest idle node, and remembers the last idle node before it |
| AccountCacheObject.ContextCache.EvictIfOverBudget | src/account/account_cache.c:117-143 | The eviction loop on the linked list is the specified eviction |
| AccountCacheObject.ContextCache.AcquireListed | src/account/account_cache.c:151-163 | A hit takes a reference and makes the entry the most recent |
| AccountCacheObject.ContextCache.InsertOpened | src/account/account_cache.c:182-221 | The second locked region of a lookup: the loser of a race closes its context, the winner is pushed and eviction follows |
| AccountCacheObject.ContextCache.ReleaseContext | src/account/account_cache.c:223-242 | Releasing a reference; the last one makes the entry idle and may evict |
| AccountCacheObject.Acquired.Push | src/account/account_cache.c:260-275 | The per-thread buffer appends, and only when it is full it is replaced by one of twice its size, or of 8 |
| AccountCacheObject.Acquired.ReleaseThreadLocal | src/account/account_cache.c:277-281 | The end of a request releases everything the thread acquired, in order |
| AccountCacheObject.ReleaseAllIsRun | src/account/account_cache.c:277-281 | From any reachable state that is a run, which takes away what the buffer lists as far as it is still held, also when the thread released some of it by hand |
| AccountCacheObject.OthersKeepExactly | src/account/account_cache.c:223-281 | The references of other threads stay theirs if and only if the buffer lists no more references to any context they hold than the thread still has |
| AccountCacheObject.AddressesMeanContexts | src/account/account_cache.c:223-281 | Releases go by address: releasing a buffer is releasing the contexts that are listed at its addresses by now, whatever closed contexts had those addresses before |
| AccountCacheObject.OthersKeepAtAddresses | src/account/account_cache.c:223-281 | With addresses given out again, others keep their references if and only if the buffer means, by now, no more references to any context they hold than the thread still has |
| AccountCacheObject.StaleReference | src/account/account_cache.c:223-242 | A reference to a closed context whose address is in use again means the context that uses it |
| AccountCacheObject.ContextCache.SetMaxResident | src/account/account_cache.c:75-82 | Zero stands for the default limit; changing the limit evicts nothing |
| AccountCacheObject.ContextCache.Stats | src/account/account_cache.c:282-303 | The two counters as they stand |
| AccountCacheObject.ReleasedTwice | src/account/account_cache.c:223-281 | A run in which a thread releases by hand and at the end of its request, and takes the reference of another thread |
| Rfc2136Verify.UpdateReadsAsIntended | src/dns/handle_dns_rfc2136.c:437-489 | A finished update fits 4096 octets and parses as one zone, no prerequisite, the deletion, the addition if there is a value and one signature, with true counts and lengths and no octet left over (sections 2.5.1 and 2.5.2 of RFC 2136) |
| Rfc2136Verify.QueryReadsAsIntended | src/dns/handle_dns_rfc2136.c:338-365 | A finished query parses as one question and one signature |
| Rfc2136Verify.ServerDigests | src/dns/handle_dns_rfc2136.c:138-198 | Taking the signature record away and lowering ARCOUNT gives back the octets that were signed (section 4.3 of RFC 8945); the variables agree if and only if the key name ends within 255 characters |
| Rfc2136Verify.ServerAccepts | src/dns/handle_dns_rfc2136.c:138-198 | A server that verifies accepts every update and query with such a key name |
| Rfc2136Verify.LongKeysAreSent | src/dns/handle_dns_rfc2136.c:338-365 | A query signed with any key name between 256 and 3000 characters is sent, and the server digests other octets than those that were signed |
| Rfc2136Verify.SomeKeysAreLong | src/dns/handle_dns_rfc2136.c:94-110 | Five labels of sixty characters make such a key name |
| Rfc2136Verify.LegalNamesFit | src/dns/handle_dns_rfc2136.c:55-60 | Names that DNS allows never overflow the buffer |
| Rfc2136Verify.TsigReadsBack | src/dns/handle_dns_rfc2136.c:174-187 | The signature record holds algorithm, 48-bit time, fudge, MAC, original number and no error |
| Rfc2136.SignedParses | src/dns/handle_dns_rfc2136.c:169-198 | Signing any message adds exactly one additional record and raises ARCOUNT by one |
| DnsWire.LabelsOfDotted | src/dns/handle_dns_rfc2136.c:94-110 | The labels written are the dotted parts of the name up to its end, a final dot or an empty label |
| DnsWire.RecordReadsBack | src/dns/handle_dns_rfc2136.c:440-477 | Any record that fits its fields reads back |
| DnsCanonical.LabelsOfCut | src/dns/handle_dns_rfc2136.c:112-123 | Cutting a dotted name cuts its labels at the same place and does nothing else to them |
| DnsCanonical.LabelsBeforeCut | src/dns/handle_dns_rfc2136.c:112-123 | So labels that end before the cut stay, and none becomes longer |
| DnsCanonical.LabelsOfPrefix | src/dns/handle_dns_rfc2136.c:112-123 | A name cut at 255 characters still fits, and has the same labels if the name ends before the cut |
| Rfc2136Object.Msg.PutBytes | src/dns/handle_dns_rfc2136.c:62-69 | The buffer holds everything asked for so far, or the overflow flag is set for good |
| Rfc2136Object.Msg.PutName | src/dns/handle_dns_rfc2136.c:94-110 | The label loop writes the name, or sets the flag for a label of more than 63 octets |
| Rfc2136Object.Msg.PutNameCanonical | src/dns/handle_dns_rfc2136.c:112-123 | The lower-casing loop with its bound of 255 characters |
| Rfc2136Object.TsigSign | src/dns/handle_dns_rfc2136.c:138-198 | Signing in place, with RDLENGTH and ARCOUNT patched afterwards, gives the specified message or fails exactly when it does not fit |
| Rfc2136Object.UpdateTxt | src/dns/handle_dns_rfc2136.c:437-489 | The message is built, checked for overflow and signed as specified, with the refusal that comes first |
| Rfc2136Object.QueryTxt | src/dns/handle_dns_rfc2136.c:338-365 | The query is built, checked for overflow and signed as specified |
| DnsReply.ReadReply | src/dns/handle_dns_rfc2136.c:372-434 | The walk ends and reads no octet past the reply, whatever was sent |
| DnsReply.ProperReplyIsRead | src/dns/handle_dns_rfc2136.c:386-434 | On a proper reply, with names ending in zero or in a pointer, it returns the first character-string of the first TXT answer that fits |
| FrameReader.Reader.NextFrame | tools/firehose_probe.cpp:281-307 | However the connection cuts up the octets, the next frame is the first frame of the unconsumed stream |
| FrameReader.Reader.ReadAll | tools/firehose_probe.cpp:601-623 | Calling frame until it fails returns exactly the frames of the unconsumed stream and why there is no further one, however the connection cuts it up |
| FrameReader.Reader.Need | tools/firehose_probe.cpp:329-338 | Buffering more never changes the unconsumed stream, and fails exactly when it is too short |
| FrameReader.Reader.Compact | tools/firehose_probe.cpp:318-327 | Dropping consumed octets changes nothing |
| FrameReader.FrameReadsBack | tools/firehose_probe.cpp:281-307 | A frame of section 5.2 of RFC 6455, masked or not, reads back with its payload unmasked |
| FrameReader.StreamReadsBack | tools/firehose_probe.cpp:275-345 | A stream of frames is read as exactly those frames |
| FrameReader.MaskedTwice | tools/firehose_probe.cpp:302-305 | Unmasking undoes masking (section 5.3 of RFC 6455) |
| FeedSplice.Feed.InsertLocalPosts | src/appview/appview_raw.c:74-146 | The nested loops give the specified page |
| FeedSplice.PageIsUpstreamAndAdded | src/appview/appview_raw.c:89-145 | The page is the upstream page and what was added, nothing else and nothing twice |
| FeedSplice.EachAddressOnce | src/appview/appview_raw.c:91-115 | An address is added once, if a qualifying record for it exists and upstream lacks it, and the first such record is used |
| FeedSplice.UpstreamOrderKept | src/appview/appview_raw.c:128-143 | Every upstream item stays, in its order |
| FeedSplice.OrderKept | src/appview/appview_raw.c:128-143 | A descending page stays descending |
| FeedSplice.LastStaysLastExactly | src/appview/appview_raw.c:78-87 | The last item stays last if and only if upstream has an earlier item for everything added |
| FeedSplice.LastStaysLast | src/appview/appview_raw.c:78-101 | So it does whenever the last item gives its time |
| Labels.WalkIsComplete | src/label/label_store.c:146-277 | A walk that ends has returned exactly the matching labels of the table at its end, each once and in order, whatever was added meanwhile |
| Labels.WalkEndsWhileAdding | src/label/label_store.c:146-277 | While labels are being added, following cursors ends after no more pages than the labels that match at the last of them fill |
| Labels.WalkEnds | src/label/label_store.c:146-277 | With nothing added, it ends after exactly as many pages as the matches fill |
| Labels.PagesNeededIsCeiling | src/label/label_store.c:146-277 | That number is the matches divided by the limit, rounded up, and one for no match |
| Labels.AfterMatch | src/label/label_store.c:245-277 | Asking for what comes after the last label of a page gives the matches after it |
| Labels.LabelStore.QueryPage | src/label/label_store.c:146-277 | The row loop with its extra row gives the page and its cursor |
| Labels.LabelStore.Insert | src/label/label_store.c:78-110 | A label is added with a number above all others |
| LabelsQuery.QueryReadsBack | src/label/labels_routes.c:58-134 | Parameters written as a query string and parsed are set as they were, in order, up to the first malformed one |
| LabelsQuery.ComponentReadsBack | src/label/labels_routes.c:14-33 | Percent decoding inverts percent encoding |
| LabelsQuery.ParseQuery | src/label/labels_routes.c:58-134 | The loop over the pieces collects repeated keys and stops at the first malformed limit or cursor |
| LabelsQuery.DecodeLoop | src/label/labels_routes.c:14-33 | The index loop turns escapes and plus signs into octets, and leaves a percent sign without two digits alone |
| LabelsQuery.CursorReadsBack | src/label/labels_routes.c:114-126 | A cursor that a page gave out asks for what comes after that page |
| ConfigRoundTrip.FileReadsBack | cpp/metalbear/config_file.cpp:445-626 | Loading a file written in either dialect makes exactly the assignments written, in order |
| ConfigRoundTrip.TextReadsBackExactly | cpp/metalbear/config_file.cpp:19-106 | What readers find in the field after the line is the text written if and only if it is not empty, every number sign in it has an even number of quotes before it, it holds no zero octet, and fewer than 64 texts are loaded |
| ConfigRoundTrip.ApostrophedReadsBackExactly | cpp/metalbear/config_file.cpp:236-253 | In YAML a text in apostrophes reads back if and only if it is not empty, every number sign in it has an odd number of quotes before it, it holds no zero octet, and fewer than 64 texts are loaded |
| ConfigRoundTrip.UndoubleDoubled | cpp/metalbear/config_file.cpp:241-253 | Reading a text in apostrophes undoes the doubling of apostrophes |
| ConfigRoundTrip.WithoutQuoteOrHash | cpp/metalbear/config_file.cpp:55-65 | Texts without a quote or without a number sign meet the condition on number signs |
| ConfigRoundTrip.CutWithoutComplaint | cpp/metalbear/config_file.cpp:55-65 | A text that is cut can be loaded as another without an error |
| ConfigRoundTrip.LastWins | cpp/metalbear/config_file.cpp:334-418 | After any load a field holds what was written last for it, a text or list if and only if fewer than 64 texts and lists were loaded before; otherwise it ends up without one, and a loaded text stays where it is |
| ConfigRoundTrip.LoadedFileHolds | cpp/metalbear/config_file.cpp:19-24 | The same from the lines of a file to what readers of the configuration find |
| ConfigRoundTrip.SettingIsApplied | cpp/metalbear/config_file.cpp:445-626 | A setting line in either dialect applies its key with what the comment scan leaves of its value |
| ConfigRoundTrip.ListText | cpp/metalbear/config_file.cpp:199-295 | A flat array of plain items, without quotes, backslashes, line ends and zero octets, is joined with commas in both dialects |
| ConfigExact.TomlListReadsBackExactly | cpp/metalbear/config_file.cpp:199-220 | In TOML a list is what its field holds, joined, if and only if the joined list is not empty, holds no quote and no zero octet, and there is room for it |
| ConfigExact.YamlListReadsBackExactly | cpp/metalbear/config_file.cpp:258-295 | In YAML a list of items without quotes is so if and only if no item is empty, none has a backslash before its last octet, none holds a zero octet, and there is room |
| ConfigExact.BareReadsBackExactly | cpp/metalbear/config_file.cpp:236-256 | In YAML a text written without quotes reads back if and only if it neither begins nor ends with a space, is not between quotes or apostrophes, has an odd number of quotes before every number sign, holds no zero octet, and there is room |
| ConfigExact.YamlLineOf | cpp/metalbear/config_file.cpp:534-616 | A YAML setting line with any value applies what comment scan and trimming leave of it, and is refused if that is nothing |
| Config.LoadFile | cpp/metalbear/config_file.cpp:445-626 | The line loops load all lines, or report the number of the first line that is refused: the lines before it load, those up to it do not |
| Config.ReadTomlLine | cpp/metalbear/config_file.cpp:461-503 | One line of the TOML loop, with all its scans, does what the specification of a line says |
| Config.ReadYamlLine | cpp/metalbear/config_file.cpp:534-616 | One line of the YAML loop does so |
| Config.ReadFlowArray | cpp/metalbear/config_file.cpp:281-295 | The items of a flow array, each read as a text, are joined with commas, and empty ones dropped |
| Config.UndoubleLoop | cpp/metalbear/config_file.cpp:241-253 | The index loop reads a text in apostrophes, in which a doubled one stands for one |
| Config.StripLoop | cpp/metalbear/config_file.cpp:55-65 | The scan with its quote toggle keeps the text up to the first number sign outside quotes |
| Config.TrimLoop | cpp/metalbear/config_file.cpp:43-53 | The two index loops remove the white space at both ends and nothing else |
| Config.UnescapeLoop | cpp/metalbear/config_file.cpp:89-107 | The index loop undoes the escapes of a double-quoted text, including a backslash right before the closing quote |
| Config.TomlItemsLoop | cpp/metalbear/config_file.cpp:199-220 | The scan over a TOML array joins its quoted parts with commas |
| Config.SplitFlowItems | cpp/metalbear/config_file.cpp:258-276 | The scan over a YAML flow array splits it at commas outside quotes and trims the pieces |

## Left out

- Sockets, TLS, HTTP, file errors, SQLite itself and failed allocations: tables are sequences or maps, every statement and
  every region under a lock succeeds as one step.
- Cryptography and the wolfram library (HMAC, SHA-256, signature verification, frame encoding, CID parsing beyond version
  1 framing): function parameters or opaque values.
- Wrap-around of length sums beyond 64 bits outside the archive verifier: numbers are unbounded there, except in
  configuration numbers, which are clamped as `strtoll` does.
- Car.ParseCarLoop: for a header length that wraps when added to its position the model stops with an error of its own; the
  code goes on decoding past the end of the input.
- SequencerObject.Subscriber.Deliver: how long a round without events waits, and pings; each look at the log is a round.
- Subscribe requests that are under way while the database is closed: the server stops its listener before it frees the
  sequencer (src/server.c:1052-1057), so the steps of a request are taken only while the database is open.
- Car.EveryOctetOnce: archives whose header length wraps are not accepted by the model.
- CborCanonical.ReencodingExactlyWithoutBooleans: only for boolean-free map keys, because with others it is false; the
  condition for all values is that of `ReencodingExactly`.
- A crash inside a step, such as between retention's deletion and its mark, and a clock that differs between two reads of
  one step.
- `std::sort` is modelled as a sort that may order equal keys as it likes; encoding is stated for distinct encoded keys
  where the order of equal keys would show.
- The JSON reader, DID resolution and key handling of the archive verifier, and the printing of the probe tools.
- The table of configuration names: any table of names, fields and kinds is a parameter.
- ConfigExact.YamlListReadsBackExactly: YAML lists with quotes inside an item, because then quotes, apostrophes and commas of
  different items pair up with each other.
- `find_author_view` and profile overlays: the author attached to a spliced post is not part of the item.
- In the runs of `AccountCache` contexts are numbered once and for all; what releases by address do instead is stated for the end
  of a request only, where a stale address can be released.
- The hit and miss counters of the account cache and the closing of all contexts at shutdown.
- Reading frames after a failed one: after an error the reader is not used again.
- Server routes, authorisation scopes, administration, moderation, preferences, account management, key rotation, HTTP DNS
  providers and the AppView proxy: thin handlers whose claims follow from reading one branch.
- FeedSplice.OrderKept: items without a time as a string are not compared, as in the code.
- Rfc2136Verify.UpdateReadsAsIntended: the parser does not limit a whole name to 255 octets, because the builder does not.
- VideoQuota.QuotaFromTheStart: assumes a clock that does not go back, because the quota window is measured from it.
