# Verified model of the AI spam Milter

This project models the parts of the Milter that decide and remember, and proves what they
promise over every input, every run and every interleaving. To verify:

    dafny verify dfyconfig.toml

## What is modelled

* **The attachment scanner** (`Attachments`, `PartialZip`, `Scanner`, `ScannerObject`, `ScannerTree`, `ScannerClean`,
  `ScannerFindings`, `ScannerContents`, `ScannerAnswers`, `Recognition`, `PartialZipEntries`). `ScannerObject` has the
  source's methods, with their loops and the two shared counters; they compute the functions of `Scanner`, which
  follow the same order of checks. `ScannerTree` says without any order what is reachable, forbidden and
  uninspectable, `ScannerContents` and `Recognition` what that means byte by byte and entry by entry. Decoders and
  text operations are functions in `Env`, so any bytes may decode to anything and an archive may contain itself; only
  the walk over damaged ZIP files works on real bytes. The two depth counters are what makes the recursion end.
* **The three stores**: sending-IP reputation (`IpReputation*`), correspondents (`Correspondent*`) and rejection
  history (`RejectionHistory*`). Each has a module of operations on values, a `Store` class with the source's loops
  over maps and lists, proved to perform those operations, and modules about every run. Which of several equal records
  map iteration meets first, in which order a set is visited and how a file write ends are choices: operations take
  them as arguments, methods return them as ghost results, and runs allow every legal one. The modules named
  `...Answers` say in numbers what the stores answer and record, down to single branches; only their main results have
  a row below. `BoundedHistory` and `StableSort` hold what the stores share.
* **Files** (`IpReputationFile`, `IpReputationDurability`, `CorrespondentDurability`, `Throttling`, `LateFailures`,
  `ImmediateRuns`, `Restarts`): what each file shows of its store after every step, after loading, after writes that fail
  early or late, and over several lives of the program.
* **Serving and shutting down** (`Serve`, `DeferredStores`, `Shutdown`): accept loop, sessions, ticker, cancellation and the
  order of the final steps as a transition system, first over abstract stores and then over the three real ones, from the
  moment they are loaded.
* **The session** (`Session`, `SessionObject`, `SessionRuns`, `SessionOutcomes`, `SessionAnswers`, `SessionPeers`, `Message`),
  its attachment policy (`AttachmentPolicy`) and its client, the replay tool (`ReplayClient`).
* **The wire format** (`Wire`, `Macros`, `Payloads`, `Reply`) and **alias ownership** (`Aliases`).

Times are integers in any unit and never go backwards along a run; 0 stands for the zero time, and the refresh interval is
part of the configuration so that nothing depends on the unit. Scores are reals. A correspondent's
key is a pair of addresses where the source joins them with a NUL. Address normalisation is an arbitrary function.

## What the proofs found

* A rejection replaces level and expiry of a record, so it can shorten an active repeat block once strikes were forgiven
  or aged out: `RejectionShortens` says exactly when.
* Lookups prolong repeat blocks in memory and ask for a write at most once per refresh interval (five minutes). Two things let
  the file fall further behind: with the short block switched off, a rejection below the threshold restarts the interval
  without setting a block; and loading restarts it for a block that was last prolonged long before
  (internal/milter/ip_reputation_persistence.go:46). `LagIsBoundedIff` gives the exact bound for every configuration and
  every file; `RestartLeavesFileBehind` is an ordinary restart after which a clean store is 29 days ahead of its file.
* The guide says that a flush interval of zero writes every change immediately (OPERATING_GUIDE.md:250-256). The code still
  withholds some: prolonged repeat blocks, the loss of aged strikes and of credit without strikes, and the activity of
  correspondents. The model follows the code. For each store one lemma over all its operations says exactly
  when a step withholds something (`AddressStepIsWrittenIff`, `CorrespondentStepIsWrittenIff`, `RejectionStepIsWritten`: the
  rejection history never does), and `PromptLookupIsNotWritten`, `AgedStrikesAreNotWritten`, `PromptTouchIsNotWritten` and
  `PromptMailIsNotWritten` are inputs of every kind. `ImmediateRuns` concludes for whole runs what can be to blame.
* When accepting connections fails without a cancellation, the server returns without waiting for its sessions, so the
  final flush can miss their changes: `AcceptErrorIsDurableIffDrained`.
* A JSON write synchronises the directory after the rename and can report failure with the new content in place. Undoing
  the change in memory then leaves the file ahead of it: module `LateFailures` says exactly when for every operation that
  undoes itself, and `UndoneBlockIsKept`, `UndonePermissionIsKept` and `UndoneRecordIsKept` are inputs where it does.
* Normalising an address is not idempotent for quoted local parts, so a stored entry may be dropped when it is read back.
  `ReloadIsExact`, `ReloadAfterWriteIff` and `ReloadKeepsAllIff` state the condition, and for any normalisation that is not
  idempotent the two lemmas `UnsettledIsLost` reach an entry that a restart loses.
* A header without a `filename` parameter that can be parsed at all has the effective file name `unnamed`
  (internal/attachment/scanner.go:420-455). The scanner's exemption for unnamed text parts is stated on the effective name.

## Model

| member | source | states |
|---|---|---|
| `ScannerClean.CleanIffHarmless` | internal/attachment/scanner.go:78-380 | A message is clean if and only if every node reachable through parts, attached mail and archives is neither forbidden nor uninspectable and there are no archive entries, or no more than both limits allow together; the counters then hold exactly the number and the summed claimed sizes of those entries |
| `ScannerFindings.VerdictIsJustified` | internal/attachment/scanner.go:78-380 | Any finding names a reachable node that is forbidden for just that reason, at that node's location; an encryption error has a reachable archive with an encrypted entry; any other error has something reachable that is uninspectable, or a tree over the limits |
| `ScannerFindings.FoundIffForbidden` | internal/attachment/scanner.go:78-380 | When everything is inspectable and within the limits, there is a finding if and only if something forbidden is reachable |
| `ScannerTree.GoodIffReachable` | internal/attachment/scanner.go:82-238 | The recursive notion of a good tree is the statement about all paths from the root |
| `ScannerTree.PathsAreBounded` | internal/attachment/scanner.go:83-85 | Whatever the decoders yield, archives inside themselves included, no path is longer than the depth limits allow |
| `ScannerTree.Children` | internal/attachment/scanner.go:95-123 | Each child has strictly smaller rank, a measure made of the two depth counters alone |
| `ScannerClean.FileCleanExactly` | internal/attachment/scanner.go:186-238 | Scanning one file from any budget is clean exactly when its subtree is good and fits the rest of the budget, and has then counted exactly that subtree |
| `ScannerClean.MimeCleanExactly` | internal/attachment/scanner.go:82-161 | The same for a MIME part |
| `ScannerClean.MailCleanExactly` | internal/attachment/scanner.go:163-184 | The same for attached mail |
| `ScannerFindings.FileJustified` | internal/attachment/scanner.go:186-238 | Every verdict on one file is explained by something in its subtree or by its share of the limits |
| `ScannerFindings.DamagedJustified` | internal/attachment/scanner.go:131-150 | What is reported about a part whose transfer encoding is damaged is found in its decoded beginning, or is the damage |
| `Scanner.ScanFile` | internal/attachment/scanner.go:186-238 | Whatever the verdict, the budget only moves by counting entries and never passes a limit |
| `Scanner.ScanMime` | internal/attachment/scanner.go:82-161 | The same for a MIME part |
| `Scanner.ScanPartialFrom` | internal/attachment/scanner.go:295-345 | A ZIP file entered at a local header is never clean; the budget stays within its limits |
| `Scanner.ScanPartialEntry` | internal/attachment/scanner.go:296-343 | The walk goes on only past a complete entry |
| `Attachments.Count` | internal/attachment/scanner.go:393-407 | The 64-bit arithmetic of the limits never wraps: counting succeeds exactly when both limits hold for the true sums, for every claimed size |
| `Attachments.BlockedIffAny` | internal/attachment/scanner.go:409-418 | A name is blocked if and only if any of its dot-separated extensions is, not only the last |
| `PartialZip.EntryAt` | internal/attachment/scanner.go:295-344 | Every field and slice is read within the data; a complete entry ends strictly after it starts and within the data |
| `PartialZipEntries.FirstEntry` | internal/attachment/scanner.go:295-344 | A stored entry encoded as section 4.3.7 of the ZIP application note says is decoded to its own name, size and content |
| `PartialZipEntries.EntriesInOrder` | internal/attachment/scanner.go:285-346 | On non-empty stored entries without encryption or data descriptors, followed by anything that is not a local header, the walk yields each of them in order |
| `PartialZipEntries.AllEntriesAreScanned` | internal/attachment/scanner.go:285-346 | If such entries are harmless and within the limits, all are scanned and counted, and the file is then reported as incomplete |
| `ScannerObject.Scanner.CountArchiveFile` | internal/attachment/scanner.go:393-407 | Updates the shared counters as `Attachments.Count` says and not at all on failure |
| `ScannerObject.Scanner.ReadArchiveEntry` | internal/attachment/scanner.go:382-391 | Reads within the size limit, then counts the bytes read |
| `ScannerObject.Scanner.BlockedExtensionOf` | internal/attachment/scanner.go:409-418 | The loop returns the first blocked extension |
| `ScannerObject.Scanner.ScanFile` | internal/attachment/scanner.go:186-238 | Verdict and counters are those of `Scanner.ScanFile`; what its checks recognise is stated byte by byte in `Recognition` |
| `ScannerObject.Scanner.ScanZIP` | internal/attachment/scanner.go:240-283 | The loop over the directory computes `Scanner.ScanZip` |
| `ScannerObject.Scanner.ScanPartialZIP` | internal/attachment/scanner.go:285-346 | The loop over local headers computes `Scanner.ScanPartial` |
| `ScannerObject.Scanner.ScanTAR` | internal/attachment/scanner.go:348-380 | The loop over headers computes `Scanner.ScanTar` |
| `ScannerObject.Scanner.ScanMIME` | internal/attachment/scanner.go:82-123 | The loop over parts computes `Scanner.ScanMime` |
| `ScannerObject.Scanner.ScanLeaf` | internal/attachment/scanner.go:125-160 | The rest of the scan of a part computes `Scanner.ScanLeaf` |
| `ScannerObject.Scanner.ScanRFC822` | internal/attachment/scanner.go:163-184 | Computes `Scanner.ScanMail` |
| `ScannerObject.Scanner.Scan` | internal/attachment/scanner.go:78-80 | A scan with fresh counters is `Scanner.Scan` |
| `Recognition.ExecutableIff` | internal/attachment/scanner.go:526-548 | A file is executable if and only if it begins with MZ, with 127 ELF, with one of the eight Mach-O magic numbers, or is a script of a listed interpreter; with the text reported for each |
| `Recognition.ArchiveIff` | internal/attachment/scanner.go:502-524 | Which first bytes, bytes at 257, name endings and media types make which archive format, and which of them counts first |
| `Recognition.BlockedNames` | internal/attachment/scanner.go:409-418 | A name is blocked if and only if, trailing dots and spaces aside, the characters between some dot and the next dot or the end are a blocked extension; the leftmost is reported |
| `Recognition.ReadIff` | internal/attachment/scanner.go:592-608 | Of a stream the first bytes up to a positive limit are looked at; it counts as read exactly when it is no longer and ends without an error |
| `ScannerContents.FileForbiddenIff` | internal/attachment/scanner.go:186-195 | A file is forbidden exactly when its name is blocked or, with signatures inspected, it is a program |
| `ScannerContents.ZipContents` | internal/attachment/scanner.go:246-281 | Below an intact ZIP file are its entries that are not directories, in order, as far as they may be read, each charged with the size it claims; it is uninspectable exactly when one is encrypted, unreadable, too large or claims to be |
| `ScannerContents.TarContents` | internal/attachment/scanner.go:348-380 | The same for the regular files of a TAR file, which is uninspectable also when its headers end in an error |
| `ScannerContents.DamagedZipContents` | internal/attachment/scanner.go:285-346 | A ZIP file without a directory holds the entries of its local headers as far as one leads to the next; it is never inspectable |
| `ScannerContents.MultipartContents` | internal/attachment/scanner.go:95-123 | A multipart part has its parts in order one level deeper; it needs a boundary, and its parts and their end must be readable |
| `ScannerContents.LeafContents` | internal/attachment/scanner.go:125-160 | Any other part is a file, attached mail, or an exempt text; of a damaged one, what was decoded is looked at as mail and as an archive |
| `ScannerContents.LeafForbiddenIff` | internal/attachment/scanner.go:125-141 | Such a part is forbidden for a blocked name, decoded or not, and for a program in what could be decoded when it is damaged; it is uninspectable exactly when damaged |
| `ScannerAnswers.ProgramsAreNeverClean` | internal/attachment/scanner.go:190-194 | With signatures inspected, a message is never clean that has, at any depth, a file with the first bytes of a program or a listed script |
| `ScannerAnswers.BlockedIsNeverClean` | internal/attachment/scanner.go:187-189 | Nor is one with a file, at any depth, with a blocked extension anywhere in its name |
| `ScannerAnswers.UninspectableIsNeverClean` | internal/attachment/scanner.go:196-238 | Nor, with archives inspected, one with an archive below the depth limit, without a directory, or with an encrypted, unreadable or oversized entry |
| `ScannerAnswers.OversizeIsNeverClean` | internal/attachment/scanner.go:393-407 | Nor one with an archive, at any depth, of more entries or charged bytes than the limits allow |
| `ScannerAnswers.FirstPartDecides` | internal/attachment/scanner.go:99-123 | The first part with something to report decides, whatever follows it and even if the parts end abruptly |
| `ScannerAnswers.FirstZipEntryDecides` | internal/attachment/scanner.go:246-281 | So does the first such entry of a ZIP file |
| `ScannerAnswers.FirstTarEntryDecides` | internal/attachment/scanner.go:348-380 | And of a TAR file |
| `ScannerAnswers.LeafAnswer` | internal/attachment/scanner.go:125-160 | A blocked name is found without decoding, a program also in what could be decoded of a damaged part; text without a file name is left alone |
| `ScannerAnswers.ZipEntryAnswer` | internal/attachment/scanner.go:246-281 | Encryption is reported first, then the name without decompression, then a program whatever size the entry claims, only then a limit or an error |
| `ScannerAnswers.PartialEntryAnswer` | internal/attachment/scanner.go:310-343 | A program in an incomplete entry of a damaged ZIP file is found all the same |
| `ScannerAnswers.DamagedAnswer` | internal/attachment/scanner.go:131-150 | Of a damaged part a program is reported first, then whatever its decoded beginning has as attached mail, then a finding in it as an archive, and only then the damage |
| `PartialZip.HeaderBytes` | internal/attachment/scanner.go:295-295 | A local header is 30 bytes that begin with PK, 3, 4 |
| `PartialZip.EntryBytes` | internal/attachment/scanner.go:296-344 | Where each field of an entry lies and what its bytes are worth, least significant first; where its data ends and when it is incomplete |
| `IpReputationAnswers.PruneKeepsRecent` | internal/milter/ip_reputation.go:315-327 | With a positive threshold and window, pruning keeps, in order, exactly the strikes t with `now - t < repeatWindow` |
| `IpReputationAnswers.LookupAnswer` | internal/milter/ip_reputation.go:256-313 | A peer is blocked if and only if it is watched and has a record with a block that ends after now; with the reason, level, number of strikes and end that are reported |
| `IpReputationAnswers.AttemptProlongs` | internal/milter/ip_reputation.go:298-308 | An attempt on a repeat block moves its end to a full duration from now; it asks for a write exactly when the refresh interval is over |
| `IpReputationAnswers.RejectionIsRecorded` | internal/milter/ip_reputation.go:170-211 | Only rejections of watched peers without an exempt host name are recorded, on what a cleanup leaves of the record |
| `IpReputationAnswers.ManualBlockHolds` | internal/milter/ip_reputation.go:412-446 | When a manual block succeeds, and that later lookups then report it, as manual with full score, exactly until its end |
| `IpReputationAnswers.ManualDeleteHolds` | internal/milter/ip_reputation.go:448-466 | When a manual deletion succeeds, and that it removes that record and no other |
| `IpReputationHistory.StrikesFollowHistory` | internal/milter/ip_reputation.go:183-254 | In every run from a store whose strikes are faithful to some past, an empty or a loaded one for instance, the strikes of an address are a suffix of its rejection times since the record was created, with credit disabled one that loses only what is too old or beyond the threshold |
| `Restarts.StrikesSurviveRestarts` | internal/milter/ip_reputation_persistence.go:12-50 | Over any number of lives, each loading a file that shows the records of the one before: the same, with rejections counted from before the restarts |
| `Restarts.WindowSurvivesRestarts` | internal/milter/ip_reputation_persistence.go:12-50 | Without legitimate credit the strikes are then the last rejections of all lives, as many as are less than `repeatWindow` ago but at most `repeatThreshold`, counted rejection by rejection |
| `Restarts.LoadedIsFaithful` | internal/milter/ip_reputation_persistence.go:12-50 | A store loaded from any file is faithful to its own strikes |
| `IpReputationHistory.StrikesAreTheWindow` | internal/milter/ip_reputation.go:191-198 | In such a run without legitimate credit the lazily pruned and trimmed list is at any later time made of the last rejections of the whole past: as many as have `now - t < repeatWindow`, but at most `repeatThreshold` |
| `IpReputationHistory.EscalationIsExact` | internal/milter/ip_reputation.go:191-206 | In such a run a rejection makes a repeat block, until `now + repeatDuration`, exactly when at least `repeatThreshold` rejections t of the whole past have `now - t < repeatWindow`; otherwise it makes a short block or leaves an unexpired one |
| `IpReputationHistory.CreditForgivesOldest` | internal/milter/ip_reputation.go:215-254 | While strikes are left and none ages out, every `legitimatePerStrike` legitimate messages forgive one strike, the oldest first, and leave the block alone |
| `IpReputationRuns.FateHolds` | internal/milter/ip_reputation.go:170-351 | Addresses are independent: every operation does to each record what that record and the clock determine, except for the one record it evicts |
| `IpReputationRuns.RunOk` | internal/milter/ip_reputation.go:121-484 | Over every run from a store whose records are well formed and within capacity, they stay so |
| `IpReputationRuns.LoadedStoreOk` | internal/milter/ip_reputation_persistence.go:12-50 | A store loaded from a file is such a store when the stored addresses are tracked and no repeat block ends later than one set at loading |
| `IpReputationBlocks.BlockPersists` | internal/milter/ip_reputation.go:256-313 | Over every run from such a store, a block reported with expiry E is reported by every later lookup before E with an expiry no earlier, unless a rejection, an administrator or an eviction touched that address |
| `IpReputationBlocks.LookupIsolated` | internal/milter/ip_reputation.go:256-313 | A lookup never changes another address's answer, then or later |
| `IpReputationBlocks.LegitimateEvidenceIsHarmless` | internal/milter/ip_reputation.go:215-254 | Legitimate evidence creates no record and changes no blocking decision, now or later |
| `IpReputationBlocks.ListMatchesLookup` | internal/milter/ip_reputation.go:468-484 | After every run from such a store the list of active blocks has an address exactly when a lookup at that instant would block it, with the same level |
| `IpReputationBlocks.RestartKeepsDecisions` | internal/milter/ip_reputation_persistence.go:12-50 | After every run from such a store, loading what would be written at that instant changes no blocking decision, then or later |
| `IpReputationBlocks.EvictionSparesBlocks` | internal/milter/ip_reputation.go:353-373 | What eviction removed from a full store had no block if any record had none, no repeat block if any had none, and was of its kind the longest inactive |
| `IpReputationBlocks.RejectionShortens` | internal/milter/ip_reputation.go:199-206 | A rejection shortens an active repeat block if and only if the strikes less than the window ago, with the new one, are below the threshold and the short block ends earlier |
| `IpReputationBlocks.ForgivenBlockIsShortened` | internal/milter/ip_reputation.go:201-205 | A run from an empty store, two rejections and two legitimate messages, after which one more rejection cuts a repeat block from instant 1002 to a short one that ends at 15 |
| `IpReputationDurability.LagIsBoundedIff` | internal/milter/ip_reputation_persistence.go:12-76 | For every configuration, every loaded file and every allowance: over every run from that file, with writes reliable or deferred, the stored expiry of each repeat block is never later than the one in memory and less than one refresh interval and the allowance behind it whenever the store is clean, if and only if rejections cannot add more than the allowance and no loaded block that lookups can prolong was last prolonged longer before loading, or ends later than one set then |
| `IpReputationDurability.RestartLeavesFileBehind` | internal/milter/ip_reputation_persistence.go:46-46 | A concrete restart: a loaded thirty-day block with a day left, one lookup a second later, and the clean store is 2505601 seconds ahead of its file |
| `IpReputationDurability.DiskLagIsBounded` | internal/milter/ip_reputation.go:298-308 | The sufficient direction, as an invariant of every run from any store that meets it |
| `IpReputationDurability.FollowsFromEmptyStore` | internal/milter/ip_reputation.go:298-308 | In every run from an empty store with a positive short duration, every repeat-blocked address is repeat-blocked in the file of a clean store, its expiry less than one refresh interval behind |
| `IpReputationDurability.StaleBlockLags` | internal/milter/ip_reputation_persistence.go:46-46 | For every file with a block that breaks the condition, a run that breaks the bound |
| `IpReputationDurability.UnrenewedBlockLags` | internal/milter/ip_reputation.go:199-208 | For every configuration that breaks the condition and every file, a run that breaks the bound |
| `IpReputationFile.StepSaves` | internal/milter/ip_reputation.go:170-484 | Every step writes all records, marks the store, or changes records only by pruning aged strikes, dropping credit without strikes, and prolonging a repeat block within its refresh interval |
| `IpReputationFile.UnsavedKeepsShown` | internal/milter/ip_reputation_persistence.go:52-76 | Steps that ask for no write, and time, leave the file showing every record: level, short expiry, classification, score, credit, and strikes as every later question sees them |
| `IpReputationFile.LoadedIsShown` | internal/milter/ip_reputation_persistence.go:12-50 | The file shows what was loaded from it, and what else it holds has expired |
| `IpReputationFile.WrittenShows` | internal/milter/ip_reputation_persistence.go:66-76 | A file just written shows everything |
| `IpReputationFile.ShownRecordsReload` | internal/milter/ip_reputation_persistence.go:12-50 | A restart at any later time loads a shown record exactly when memory would still hold it, with the same strikes, level, expiry, classification and score |
| `Throttling.AddressStepIsWrittenIff` | internal/milter/ip_reputation.go:170-484 | Over every operation: from a file that holds everything, an immediate step whose writes succeed leaves such a file if and only if it withholds nothing, which only a lookup, legitimate evidence and a listing can do |
| `Throttling.LookupIsWrittenIff` | internal/milter/ip_reputation.go:256-313 | An immediate lookup withholds nothing if and only if it ends a block or an empty record, refreshes a block whose interval is over, or changes nothing |
| `Throttling.LegitimateIsWrittenIff` | internal/milter/ip_reputation.go:215-254 | Immediate legitimate evidence, if and only if a strike is left, no block keeps the record, or the record has neither strikes nor credit |
| `Throttling.ListIsWrittenIff` | internal/milter/ip_reputation.go:329-351 | An immediate listing, if and only if something ends or goes, or no strike has aged out |
| `Throttling.AgedStrikesAreNotWritten` | internal/milter/ip_reputation.go:228-237 | A record for which both evidence and listing withhold a change |
| `Throttling.PromptLookupIsNotWritten` | internal/milter/ip_reputation.go:298-308 | An input of an immediate lookup that the file misses |
| `ImmediateRuns.AddressesAgreeUnlessSpoiled` | internal/milter/ip_reputation_persistence.go:58-101 | After every immediate run, with writes ending in any way, the file holds everything unless some step withheld a change, could not write or was undone late and no write has been completed since |
| `LateFailures.ManualBlockAgreesIff` | internal/milter/ip_reputation.go:412-446 | After an immediate manual block file and memory agree unless the write failed after replacing the file with something new |
| `LateFailures.ManualUnblockAgreesIff` | internal/milter/ip_reputation.go:448-466 | After an immediate manual deletion they agree unless the write failed after replacing the file |
| `LateFailures.UndoneBlockIsKept` | internal/milter/ip_reputation.go:434-442 | An input after which the file blocks an address that memory does not |
| `IpReputationStore.Store.constructor` | internal/milter/ip_reputation.go:121-151 | A new store holds what loading its file yields, or nothing when the feature is off |
| `IpReputationStore.Store.Load` | internal/milter/ip_reputation_persistence.go:12-50 | Too many stored records load as none; otherwise the unexpired ones, pruned and trimmed, with the refresh time set to the time of loading |
| `IpReputationStore.Store.PruneStrikes` | internal/milter/ip_reputation.go:315-327 | The compaction in place keeps what `IpReputation.Prune` does: by `IpReputationAnswers.PruneKeepsRecent` exactly the strikes t with `now - t < repeatWindow`, in order |
| `IpReputationStore.Store.CleanupLocked` | internal/milter/ip_reputation.go:329-351 | Every record is dropped, lapsed or pruned as its own fields say, and saved only if something lapsed or went |
| `IpReputationStore.Store.EvictOldestLocked` | internal/milter/ip_reputation.go:353-373 | Removes one record, a lexicographic minimum of protection and last activity |
| `IpReputationStore.Store.Add` | internal/milter/ip_reputation.go:170-211 | Performs `IpReputation.Add` on records, flags and file for a legal victim and the write outcomes it names; stays within capacity |
| `IpReputationStore.Store.RecordLegitimate` | internal/milter/ip_reputation.go:215-254 | Performs `IpReputation.RecordLegitimate` |
| `IpReputationStore.Store.Lookup` | internal/milter/ip_reputation.go:256-313 | Performs and answers `IpReputation.Lookup` |
| `IpReputationStore.Store.ManualAdd` | internal/milter/ip_reputation.go:412-446 | Performs `IpReputation.ManualAdd`: a failed save restores every record |
| `IpReputationStore.Store.ManualDelete` | internal/milter/ip_reputation.go:448-466 | Performs `IpReputation.ManualDelete`: a failed save restores every record |
| `IpReputationStore.Store.ListActive` | internal/milter/ip_reputation.go:468-484 | After a cleanup, exactly the active blocks |
| `IpReputationStore.Store.SaveLocked` | internal/milter/ip_reputation_persistence.go:58-64 | Marks the store in deferred mode, else writes |
| `IpReputationStore.Store.WriteLocked` | internal/milter/ip_reputation_persistence.go:66-76 | Writes every record without its refresh time |
| `IpReputationStore.Store.FlushState` | internal/milter/ip_reputation_persistence.go:87-101 | Writes a dirty store and keeps it dirty unless the write succeeds |
| `CorrespondentRuns.CountsAreExact` | internal/milter/correspondents.go:203-302 | In every run from an allowlist that counts right, an empty or a loaded one for instance: capacity holds, entries not learned from inbound mail count nothing, and an inbound-learned one counts exactly min(required number, qualifying legitimate messages since it was created) |
| `Restarts.CountsSurviveRestarts` | internal/milter/correspondents_persistence.go:10-56 | Over any number of lives, each reading the relationships, types and counts that the one before left in the file: the same, with messages counted from before the restarts |
| `Restarts.LoadedCounts` | internal/milter/correspondents_persistence.go:19-44 | What is read from any file whose counts are within what qualifies counts right |
| `CorrespondentRuns.QualifiedMeansEarned` | internal/milter/correspondents.go:304-307 | In such a run an inbound-learned relationship is trusted if and only if it earned the required number |
| `CorrespondentRuns.TrustOnlyRises` | internal/milter/correspondents.go:100-125 | Every event that leaves a relationship in place keeps its age and never lowers its trust |
| `CorrespondentRuns.QualifiedGoLast` | internal/milter/correspondents.go:403-418 | Whoever a loop evicts was at that turn a minimum of (qualified, activity) in a full store, so a qualified relationship goes only when no unqualified one is left |
| `CorrespondentRuns.UnwantedRemovesExactly` | internal/milter/correspondents.go:213-245 | A confident unwanted verdict removes, beyond stale entries, exactly the in-scope inbound-learned ones |
| `CorrespondentRuns.UnwantedForgetsInbound` | internal/milter/correspondents.go:213-245 | Afterwards the sender is known only through outbound or manual relationships |
| `CorrespondentRuns.StepShape` | internal/milter/correspondents.go:73-302 | Every operation carries entries over unchanged but for activity, except for one loop over recipients or one entry put by hand |
| `CorrespondentDurability.CleanStoreIsOnDisk` | internal/milter/correspondents_persistence.go:58-115 | From the moment deferral begins with a store that agrees with its file, over every run and with flushes failing in any way, the file of a clean store holds exactly the relationships, types and counts in memory, each with its last saved activity, and memory is ahead by less than the update interval |
| `CorrespondentDurability.CleanEntryOnDisk` | internal/milter/correspondents.go:309-312 | What that says about one relationship |
| `CorrespondentDurability.LoadedIsSteady` | internal/milter/correspondents_persistence.go:10-56 | Whatever loading had to change and however its own write ended, a loaded store is not ahead of what it marks as saved |
| `CorrespondentDurability.ReloadAfterWriteIff` | internal/milter/correspondents_persistence.go:10-83 | Loading a written file restores every relationship, with its activity marked as saved, if and only if every relationship is what some stored one reads back as |
| `CorrespondentDurability.ReloadKeepsAllIff` | internal/milter/correspondents_persistence.go:10-83 | When no stored address turns into another one, that is: if and only if each is its own canonical form and each entry in the form it is loaded in |
| `CorrespondentDurability.UnsettledIsLost` | internal/milter/correspondents.go:458-474 | For any address whose canonical form is not its own: permitting it by hand and writing the file is lost by the next load |
| `Throttling.CorrespondentStepIsWrittenIff` | internal/milter/correspondents.go:73-456 | Over every operation: from a file that holds everything, an immediate step whose write succeeds leaves such a file if and only if it withholds nothing, which only a loop over recipients and noted activity can do |
| `Throttling.LoopIsWrittenIff` | internal/milter/correspondents.go:94-131 | An immediate loop over recipients, of outgoing or of legitimate mail, withholds nothing if and only if something is stale, some recipient is new and may be added, promoted, counted or due, or no visited entry changes; judged by the entries before the loop |
| `Throttling.TurnsSaveIff` | internal/milter/correspondents.go:265-302 | Whether a loop asks for a save can be told from the entries before it, recipient by recipient and whatever the order; without a save only activity was noted |
| `Throttling.PromptMailIsNotWritten` | internal/milter/correspondents.go:94-112 | A relationship for which outgoing mail and legitimate mail each withhold a change |
| `Throttling.TouchIsWrittenIff` | internal/milter/correspondents.go:140-179 | Immediately noted activity withholds nothing if and only if something is stale, a touched entry is due, or no touched entry changes |
| `Throttling.PromptTouchIsNotWritten` | internal/milter/correspondents.go:309-312 | An input of immediately noted activity that the file misses |
| `ImmediateRuns.CorrespondentsAgreeUnlessSpoiled` | internal/milter/correspondents_persistence.go:58-115 | The same for every immediate run of the correspondent allowlist |
| `LateFailures.ManualPermitAgreesIff` | internal/milter/correspondents_management.go:21-49 | After an immediate manual addition file and memory agree unless the write failed after replacing the file with something new |
| `LateFailures.ManualRevokeAgreesIff` | internal/milter/correspondents_management.go:61-91 | After an immediate manual deletion they agree unless the write failed after replacing the file and something was deleted or stale |
| `LateFailures.UndonePermissionIsKept` | internal/milter/correspondents_management.go:40-46 | An input after which the file permits a correspondent that memory does not |
| `CorrespondentStore.Store.Learn` | internal/milter/correspondents.go:73-136 | Performs `Correspondents.Learn` visiting each of at most 100 distinct recipients once, with legal evictions; stays within capacity |
| `CorrespondentStore.Store.TouchInbound` | internal/milter/correspondents.go:140-179 | Performs `Correspondents.TouchInbound` |
| `CorrespondentStore.Store.RecordInbound` | internal/milter/correspondents.go:181-302 | Performs `Correspondents.RecordInbound` visiting each recipient once, with legal evictions; stays within capacity |
| `CorrespondentStore.Store.Match` | internal/milter/correspondents.go:314-360 | Drops stale entries, then answers as `Correspondents.Lookup` does, of which `CorrespondentAnswers.MatchAnswer` says what it is |
| `CorrespondentStore.Store.EvictOldestLocked` | internal/milter/correspondents.go:403-418 | Removes one entry, a minimum of (qualified, activity) |
| `CorrespondentStore.Store.RoomFor` | internal/milter/correspondents.go:118-121 | The eviction loop ends, with exactly one legal eviction when a new entry meets a full store |
| `CorrespondentStore.Store.RemoveStaleLocked` | internal/milter/correspondents.go:435-456 | Removes exactly the stale entries and tells whether there were any |
| `CorrespondentStore.Store.AddManual` | internal/milter/correspondents_management.go:21-49 | Performs `Correspondents.AddManual`: a failed save restores every entry |
| `CorrespondentStore.Store.DeleteManual` | internal/milter/correspondents_management.go:61-91 | Performs `Correspondents.DeleteManual` and counts what it deleted |
| `CorrespondentStore.Store.Load` | internal/milter/correspondents_persistence.go:10-56 | Performs `Correspondents.Load`: an unknown version is refused; stale entries and, by legal evictions, those beyond the capacity are left out; a file that is not as it would be written is saved anew |
| `CorrespondentStore.Store.LoadEntries` | internal/milter/correspondents_persistence.go:19-44 | Keeps the entries with valid addresses and known types under their canonical keys, later ones replacing earlier ones, and tells whether any differs from what would be written |
| `CorrespondentStore.Store.TrimLocked` | internal/milter/correspondents_persistence.go:48-51 | Evicts exactly as many entries as exceed the capacity, each legally |
| `Correspondents.TrimmingKeepsTheBest` | internal/milter/correspondents_persistence.go:48-51 | Nothing dropped from a file that is too large was more protected than anything kept |
| `CorrespondentStore.Store.SaveLocked` | internal/milter/correspondents_persistence.go:58-65 | In deferred mode marks the store and the activity of every entry, else writes |
| `CorrespondentStore.Store.WriteLocked` | internal/milter/correspondents_persistence.go:67-83 | Writes every entry; only a successful write marks activity as saved |
| `CorrespondentStore.Store.FlushState` | internal/milter/correspondents_persistence.go:101-115 | Writes a dirty store and keeps it dirty unless the write succeeds |
| `CorrespondentAnswers.MatchAnswer` | internal/milter/correspondents.go:314-360 | A sender is known if and only if some relationship that is not stale vouches for it, by outgoing mail, by hand or by at least `minMessages` messages, under per-sender scope to one of the recipients; all match if each of at least one does; the two numbers count just these |
| `CorrespondentAnswers.KnownMeansEarned` | internal/milter/correspondents.go:314-360 | Over every run: a sender is known if and only if such a relationship exists that was made by outgoing mail, by hand, or by as many qualifying legitimate messages as are required |
| `CorrespondentAnswers.LearningAnswer` | internal/milter/correspondents.go:73-136 | Outgoing mail of an authenticated sender makes relationships with its first hundred distinct recipients outbound or leaves them manual, active now; it changes no other, and with room for all forgets only stale ones |
| `CorrespondentAnswers.DistinctAreFirst` | internal/milter/correspondents.go:81-90 | Those recipients are the distinct addresses of a prefix of the list, which is all of it unless there are a hundred |
| `CorrespondentAnswers.LegitimateMailAnswer` | internal/milter/correspondents.go:181-302 | Legitimate mail notes activity of relationships that count, adds one message to others when it qualifies by score and, if required, DKIM, makes new ones only then, and changes nothing else |
| `CorrespondentAnswers.UnwantedMailAnswer` | internal/milter/correspondents.go:213-252 | A confident unwanted verdict ends exactly the inbound-learned relationships of the sender in scope; any other verdict but a legitimate one ends only stale ones |
| `CorrespondentAnswers.AcceptedMailAnswer` | internal/milter/correspondents.go:140-179 | Accepted mail is activity of exactly the relationships that vouch for its sender in scope |
| `CorrespondentAnswers.PermissionAnswer` | internal/milter/correspondents_management.go:21-49 | A relationship put by hand is manual, counts nothing and is active now; it is new unless a fresh one existed; at most one other goes, to make room; a failed save undoes it |
| `CorrespondentAnswers.DeletionAnswer` | internal/milter/correspondents_management.go:61-91 | A deletion spares exactly the fresh relationships of other senders and, unless all are meant, to other recipients, and counts the rest; it is refused for what is no address and undone when it cannot be written |
| `CorrespondentAnswers.LoadedIsLast` | internal/milter/correspondents_persistence.go:19-44 | Of several entries of one relationship the last in the file is loaded |
| `CorrespondentAnswers.LoadAnswer` | internal/milter/correspondents_persistence.go:10-56 | Only versions 1 and 2 are read; what is stale or was evicted is left out, nothing else |
| `CorrespondentAnswers.LoadRewrites` | internal/milter/correspondents_persistence.go:18-56 | A file is left alone exactly when it has the present version, everything in it is in form and nothing is left out |
| `RejectionHistoryAnswers.RecordingAnswer` | internal/milter/rejection_history.go:57-97 | A rejection is recorded if the history is on, a sender is known, some recipient is an address and the write does not fail: one entry for each distinct recipient, under the visible sender if that is an address, else the envelope sender |
| `RejectionHistoryAnswers.ListingAnswer` | internal/milter/rejection_history.go:120-149 | After every run: newest first, of the last recorded entries, as many as are no older than the expiry but at most `maxEntries`, exactly those for the recipient, each as often as recorded |
| `RejectionHistoryAnswers.RememberedIsLast` | internal/milter/rejection_history.go:151-162 | Those entries are a suffix of everything recorded |
| `RejectionHistoryRuns.ListingIsTheHistory` | internal/milter/rejection_history.go:120-149 | After every run from a store that follows some past, an empty or a loaded one for instance, a listing is the newest-first stable order of the recipient's entries among the last `maxEntries` unexpired entries of that past and everything successfully recorded since |
| `Restarts.ListingSurvivesRestarts` | internal/milter/rejection_history.go:164-199 | Over any number of lives, each loading the entries that the one before left in the file: the same for everything recorded in any of them |
| `RejectionHistoryRuns.LoadedFollows` | internal/milter/rejection_history.go:164-185 | A store loaded from any file that is not from the future follows its own entries |
| `RejectionHistoryRuns.EntriesFollowPast` | internal/milter/rejection_history.go:57-97 | In every run from such a store, with lazy pruning, trimming and undone adds, the entries are a tracked suffix of the whole past |
| `RejectionHistoryRuns.ReloadIsExact` | internal/milter/rejection_history.go:164-199 | After every run from such a store, write then reload keeps every unexpired entry and every listing if and only if the stored addresses are their own canonical forms |
| `RejectionHistoryRuns.UnsettledIsLost` | internal/milter/rejection_history.go:164-185 | For any address whose canonical form is not its own: a run of one rejection that is listed differently after a restart |
| `Throttling.RejectionStepIsWritten` | internal/milter/rejection_history.go:57-149 | Over every operation: an immediate step whose write succeeds leaves a file that holds everything |
| `ImmediateRuns.RejectionsAgreeUnlessSpoiled` | internal/milter/rejection_history.go:57-224 | After every immediate run, with writes ending in any way, the file holds everything unless some step could not write or was undone late and no write has been completed since |
| `LateFailures.RecordedAgreesIff` | internal/milter/rejection_history.go:57-97 | After an immediate recording file and memory agree unless the write failed after replacing the file with something new |
| `LateFailures.UndoneRecordIsKept` | internal/milter/rejection_history.go:89-92 | An input after which the file holds an entry that memory does not |
| `RejectionHistoryStore.Store.Add` | internal/milter/rejection_history.go:57-97 | Performs `RejectionHistory.Add` with one entry per distinct recipient; a failed save restores the list |
| `RejectionHistoryStore.Store.List` | internal/milter/rejection_history.go:120-149 | Performs and answers `RejectionHistory.List` |
| `RejectionHistoryStore.Store.PruneLocked` | internal/milter/rejection_history.go:151-162 | Compacts the list to exactly the unexpired entries, in order |
| `RejectionHistoryStore.Store.Load` | internal/milter/rejection_history.go:164-185 | Loads what `RejectionHistory.Load` yields |
| `RejectionHistoryStore.Store.FlushState` | internal/milter/rejection_history.go:210-224 | Writes a dirty store and keeps it dirty unless the write succeeds |
| `BoundedHistory.TrackedAnswer` | internal/milter/rejection_history.go:151-162 | A pruned and trimmed suffix answers every later question as the complete history would; shared by strikes and rejections |
| `StableSort.StableSortIsUnique` | internal/milter/rejection_history.go:139-148 | A stable order is determined by its input, so a listing is fully specified |
| `StableSort.SortIsStable` | internal/milter/rejection_history.go:139-148 | The sort used for listings and files is a stable one |
| `Shutdown.NothingIsLost` | internal/milter/server.go:65-124 | The whole life of a server: its stores are loaded from any files the clock agrees with and deferral begins; for every interleaving of sessions, ticker flushes and cancellation, when it returns through cancellation and its final flush succeeds, the files show every record, relationship and entry of its stores, and a store that nobody changed is what was loaded from a file still untouched |
| `Shutdown.BlocksAreNotLost` | internal/milter/server.go:65-124 | Under the condition of `LagIsBoundedIff` the expiries of repeat blocks left in the file are less than one refresh interval and the allowance behind memory |
| `Shutdown.StartIsConsistent` | internal/milter/server.go:65-67 | Loading and then switching deferral on, with no demand on how stores and files agree, starts a consistent account of the changes |
| `Shutdown.FilesCanBeLoaded` | internal/milter/server.go:65-124 | From the files that any moment of such a life leaves, shut down or not, the next life can start |
| `Shutdown.NextIsConsistent` | internal/milter/server.go:65-124 | Every step of server or session keeps the stores consistent with the account of their changes |
| `Serve.CancelledServerIsDurable` | internal/milter/server.go:65-106 | The protocol alone: on a return through cancellation every marked change is saved, no session is left and the flusher has ended |
| `Serve.AcceptErrorIsDurableIffDrained` | internal/milter/server.go:92-98 | A return on an accept error keeps that promise for every continuation if and only if no session is running at that moment |
| `DeferredStores.RejectionsAreServed` | internal/milter/rejection_history.go:187-224 | The rejection history in deferred mode behaves like the abstract store: unchanged until the first change is marked, and in the file entry by entry when all changes are saved |
| `DeferredStores.AddressesAreServed` | internal/milter/ip_reputation_persistence.go:58-101 | So does the IP reputation: when all changes are saved its file shows every record, strikes and short blocks included |
| `DeferredStores.BlocksAreServed` | internal/milter/ip_reputation_persistence.go:58-101 | And the expiries of its repeat blocks stay within the bound |
| `DeferredStores.CorrespondentsAreServed` | internal/milter/correspondents_persistence.go:58-115 | So does the correspondent allowlist: when all changes are saved its file shows every relationship with an activity less than one update interval old |
| `StateFile.File.Write` | internal/jsonfile/jsonfile.go:47-96 | A write replaces the whole file or leaves it alone, and may report failure although the new content is in place |
| `SessionRuns.TransactionsLeaveNoTrace` | internal/milter/session.go:101-221 | Runs that differ only in earlier finished, aborted or refused transactions reach the same state and behave the same ever after |
| `SessionRuns.ErasureKeepsConnection` | internal/milter/session.go:571-577 | Removing every transaction from a run changes nothing about the connection |
| `SessionRuns.MessageIsSinceMail` | internal/milter/session.go:101-264 | In every transaction the retained message is made of exactly the headers and chunks since its MAIL |
| `SessionRuns.JudgedBody` | internal/milter/session.go:253-264 | The body that is judged is a prefix of everything sent since MAIL, of `maxBytes` bytes or all there is |
| `SessionRuns.EnvelopeIsSinceMail` | internal/milter/session.go:150-195 | In every transaction the sender is the one its MAIL named, and the recipients are the first hundred accepted ones since, with a flag that tells exactly whether there were more |
| `SessionOutcomes.StrikesAreRefusals` | internal/milter/session.go:359-374 | Over every run the strikes asked for, and the rejections recorded, are exactly as many as the messages the classifier refused in enforce mode |
| `SessionOutcomes.RefusedMessageWasSent` | internal/milter/session.go:253-290 | Each of these is answered by marker 121 and the text `550 5.7.1 ` with the configured message, and its message, sender and recipients are those sent since its MAIL |
| `SessionOutcomes.MonitorAcceptsEverything` | internal/milter/server.go:200-218 | Over every run in monitor mode without a command mailbox every sender and every message is accepted, nobody is struck and nothing recorded as rejected |
| `SessionOutcomes.LearningIsAuthenticated` | internal/milter/session.go:359-374 | Over every run recipients are learned only from an accepted message, with the envelope named since its MAIL, on a connection that a macro had authenticated |
| `SessionRuns.NegotiationOnceAndFirst` | internal/milter/session.go:223-239 | Negotiation happens exactly once, and before it there are only macros |
| `SessionRuns.EndOfBodyComesLast` | internal/milter/session.go:253-256 | An end of body is processed only after a MAIL and then one end of headers since the last reset |
| `SessionRuns.OneAnswerEach` | internal/milter/session.go:101-221 | A surviving command has exactly one answer, except macro, abort and quit-connection, which have none; quit ends the session silently |
| `SessionRuns.StatesAreOk` | internal/milter/session.go:385-406 | In every run authenticated implies connected, and outside a transaction nothing of one is left |
| `SessionRuns.AuthenticatedByMacro` | internal/milter/session.go:385-406 | In every run a session is connected only by its last CONNECT, and authenticated only by a macro received on that connection, as the identity it named |
| `SessionRuns.LearningFollowsAuthentication` | internal/milter/session.go:253-290 | For one decision: recipients are learned only from accepted mail of an authenticated sender; only unauthenticated mail counts as evidence about its sender, and no message that a domain or correspondent allowlist let through is recorded as classified |
| `SessionRuns.StrikesFollowRejections` | internal/milter/session.go:359-374 | For one decision: an address is struck and a rejection recorded together, only in enforce mode, and only when the classifier's verdict had the message refused |
| `SessionRuns.MonitorNeverRejects` | internal/milter/server.go:200-218 | For one decision in monitor mode: the message is not refused and nobody is struck, refused command mail aside |
| `SessionObject.Milter.HandleCommand` | internal/milter/session.go:101-221 | Fields, written frames and requested updates are those of `Session.Step` |
| `SessionObject.Milter.CaptureSessionMacros` | internal/milter/session.go:385-406 | Updates host name and authentication as `Session.CaptureMacros` says |
| `SessionObject.Milter.HandleEndOfBody` | internal/milter/session.go:253-290 | The checks one after the other decide, answer and reset as `Session.EndOfBody` says, of which `SessionAnswers.MessagesAreAnswered` gives the bytes; updates are requested only when the answer was sent |
| `SessionObject.Milter.ApplyPolicy` | internal/milter/server.go:200-218 | Selects the action that `Session.Judge` names |
| `SessionObject.Milter.PostDecisionUpdates` | internal/milter/session.go:359-374 | Asks for the updates of `Session.Consequences`, in order |
| `SessionObject.Milter.ResetMessage` | internal/milter/session.go:571-577 | Starts a fresh transaction and keeps the connection |
| `ReplayClient.ReplayIsFaithful` | tools/replay_mailbox.py:209-235 | Over the wire, an unblocked, unrefused replay of any headers and body succeeds if and only if every header name is usable and every command with its payload fits into a frame; then each command is answered as the tool expects and the message judged is the stored one |
| `ReplayClient.ScriptIsAnswered` | tools/replay_mailbox.py:209-235 | The same for the commands as they reach the session: if and only if every header name is usable |
| `ReplayClient.LongHeaderFails` | internal/milter/protocol.go:221-223 | A usable header too long for a frame: the session would take every command, and the replay fails |
| `ReplayClient.GreetingAccepted` | tools/replay_mailbox.py:68-96 | The opening commands are accepted from a new connection |
| `ReplayClient.HeadersSurvive` | tools/replay_mailbox.py:218-223 | Header commands that reach the session survive if and only if each name is non-empty once NULs are removed |
| `ReplayClient.ChunksAreTheBody` | tools/replay_mailbox.py:227-230 | The pieces sent make up the body |
| `ReplayClient.OpeningBytes` | tools/replay_mailbox.py:68-96 | The commands before the first header, byte for byte |
| `ReplayClient.PieceSizes` | tools/replay_mailbox.py:227-230 | Every piece of the body but the last has 65536 bytes, and none is empty |
| `SessionAnswers.MessagesAreAnswered` | internal/milter/session.go:253-290 | Over every run the end of a message has one answer, by the first check that applies: [97], [100], [116], or marker 121 with the text `550 5.7.1 ` and the configured one for an unwanted message or a forbidden attachment in enforce mode; which updates follow is exact, and the connection goes on without the message |
| `SessionAnswers.NegotiationAnswer` | internal/milter/session.go:223-239 | A negotiation of 12 bytes with a version v of at least 2 is answered by [79, 0, 0, 0, min(v, 6), 0, 0, 0, 0, 0, 0, 0, 0]; any other ends the session |
| `SessionAnswers.MailAnswer` | internal/milter/session.go:150-163 | In enforce mode the MAIL of a blocked peer is refused and opens nothing; any other opens a transaction with its sender and nothing else |
| `SessionAnswers.RecipientAnswer` | internal/milter/session.go:164-188 | The command mailbox is refused to whoever may not give commands; any other recipient is taken down, up to a hundred |
| `SessionAnswers.EndsIff` | internal/milter/session.go:101-221 | By command byte and phase: exactly when a session that can write its answers ends |
| `SessionPeers.HostnamesFollowMacros` | internal/milter/session.go:385-399 | Over every run the host name of the mail server is the one last named since CONNECT, else the one last named for that CONNECT |
| `SessionPeers.PeerIsTheConnected` | internal/milter/session.go:128-149 | Over every run address and host name of the peer are those of its CONNECT, and it is authenticated exactly as whom a macro last named on the connection |
| `AttachmentPolicy.ProgramsAreNotDelivered` | internal/milter/attachment_policy.go:11-80 | Scanner and session together: over every run in enforce mode, a message of a sender that is not exempt with a program anywhere in its parts, attached mail or archives is refused, or deferred when that is how uninspectable messages are treated; the stores learn nothing from it |
| `Message.BodyIsPrefix` | internal/message/message.go:110-124 | The retained body is the first `maxBytes` bytes of the concatenated chunks; the truncation flag is set exactly when bytes were cut or a chunk, even an empty one, met a full body |
| `Message.SplitDoesNotMatter` | internal/message/message.go:110-124 | Two ways of splitting a body retain the same bytes |
| `Message.HeadersAreKept` | internal/message/message.go:92-109 | The budget of 32768 bytes holds and the truncation flag is set exactly when a retained value exceeds 8192 bytes or the headers together exceed the budget; without it every retained header has all its values in order |
| `Message.Message.AddHeader` | internal/message/message.go:92-109 | Updates the fields as `Message.WithHeader` says |
| `Message.Message.AddBody` | internal/message/message.go:110-124 | Updates the fields as `Message.WithBody` says |
| `Wire.DecodeIffFrame` | internal/milter/protocol.go:213-226 | A stream yields a payload if and only if it begins with the frame of a payload of 1 to 16 MiB |
| `Wire.FrameBytes` | internal/milter/protocol.go:228-235 | The first four bytes of a frame are the length of its payload, most significant first |
| `Wire.DecodedBytes` | internal/milter/protocol.go:213-226 | What a stream begins with, by the weights of its first four bytes: a payload, a refused length or an unfinished frame |
| `Wire.FramesRoundTrip` | internal/milter/protocol.go:208-249 | Any sequence of such payloads is read back unchanged, and an unfinished frame after them adds nothing |
| `Wire.InterruptedSenderDelivers` | internal/milter/protocol.go:208-249 | A sender cut off anywhere within a frame has delivered exactly what it completed before |
| `Wire.AllArriveIff` | internal/milter/protocol.go:208-226 | Payloads whose length fits the length field all arrive if and only if each has 1 to 16 MiB; else fewer do |
| `Wire.WriteAll` | internal/milter/protocol.go:237-249 | Under arbitrary short writes what was sent is a prefix, and all of it on success |
| `Wire.WriteFrame` | internal/milter/protocol.go:228-235 | Success means exactly the frame was sent |
| `Wire.ReadFrameProgress` | internal/milter/protocol.go:213-226 | Under arbitrary short reads the outcome is the one the whole stream determines, and progress counts the bytes consumed |
| `Wire.ReadFull` | tools/replay_mailbox.py:22-31 | The exact-read loop delivers the requested bytes, or says whether the stream ended before or within them |
| `Wire.Relay` | internal/milter/protocol.go:208-249 | Short writes on one side and short reads on the other: payloads arrive unchanged |
| `Macros.ParseIff` | internal/milter/protocol.go:144-186 | A macro payload is accepted if and only if it is a target byte and at most 128 named pairs with at most one identity, of at most 1024 bytes, and one host name, of at most 253; those are what is returned |
| `Macros.ParseSessionMacros` | internal/milter/protocol.go:144-186 | The loop computes `Macros.Parse` |
| `Payloads.ParseHeaderIff` | internal/milter/protocol.go:104-114 | A header payload parses if and only if it is what a sender writes for that header |
| `Macros.NamesIff` | internal/milter/protocol.go:167-182 | Which names count, braces aside: auth_authen and j in any case |
| `Payloads.ParseEnvelopeAddressIff` | internal/milter/protocol.go:116-122 | An envelope address is what comes before the first NUL, if anything does |
| `Payloads.ParseHostnameIff` | internal/milter/protocol.go:124-130 | The host name of a CONNECT is what comes before the first NUL |
| `Payloads.ParseIdentityIff` | internal/milter/protocol.go:132-137 | A greeting is all before the only NUL, which ends it |
| `Payloads.ConnectIPOf` | internal/milter/protocol.go:188-206 | A CONNECT that spells out host name, family, port and address gives the peer that address, an IPv4-mapped one unmapped, exactly when the address is of that family |
| `Payloads.ConnectIPForm` | internal/milter/protocol.go:188-206 | A CONNECT that gives the peer an address has just that form |
| `Reply.RefusalReply` | internal/milter/protocol.go:81-91 | A 550 5.7.1 reply, byte by byte, for every text |
| `Reply.ValidIffEncoded` | internal/milter/protocol.go:98-100 | Bytes are valid UTF-8 exactly when they encode a sequence of Unicode scalar values |
| `Reply.ReplyIsWellFormed` | internal/milter/protocol.go:81-102 | One marker, text without CR, LF or NUL, one final NUL; un-escaped it is a prefix of the cleaned text of at most 510 bytes, valid UTF-8 for valid parts, and short of the limit by less than four bytes when cut |
| `Reply.TruncationIsTight` | internal/milter/protocol.go:93-102 | Truncation splits no character and loses fewer than four bytes below the limit |
| `Reply.TruncateUtf8` | internal/milter/protocol.go:93-102 | The loop returns the longest valid prefix within the limit |
| `Aliases.SenderOwnedViaAliases` | internal/milter/aliases.go:16-63 | Every refusal and its condition; with valid names in one domain and readable aliases: owned if and only if the identity, or its local part in that domain, is the local part of the sender or at most 16 hops away; a cycle or missing alias means no number of hops reaches it |
| `Aliases.Walk` | internal/milter/aliases.go:39-62 | The same for the loop |
| `Aliases.ChainRepeats` | internal/milter/aliases.go:42-46 | Once two positions of a chain agree it repeats, so a cycle hides nothing |

## Left out

- IpReputationStore.Store.ListActive: yields a set; the source returns the same blocks sorted by address.
- IpReputationStore.Store.Load: takes the file as a map of valid records; unreadable files, unknown versions and skipped malformed records are not part of this model.
- RejectionHistoryStore.Store.Load: takes a readable file of the current version.
- CorrespondentStore.Store.Load: takes the entries of a readable file; that they were read from the store's own file is not stated.
- RejectionHistoryStore.Store.Add: the reason is an argument; choosing it among several (internal/milter/rejection_history.go:99-118) is a flat list.
- Shutdown.NothingIsLost: the clock has not gone back since the files were written; the entries read from the correspondent file are given beside its content, and that they agree with it is stated only for the next start, in `FilesCanBeLoaded`.
- Wire.ReadFull: a failing reader is one kind of failure; the source passes on the library's error.
- SessionRuns.TransactionsLeaveNoTrace: the answers of shared stores are fixed while a session runs.
- The order in which stored records are written to a file, except for the rejection history.
- The listing of the correspondent allowlist (internal/milter/correspondents.go:362-394), a filter and sort of one map; like a lookup it drops stale entries first.
- Pending results of reverse DNS: whether a peer is exempt by its confirmed name is an argument.
- Reading frames in the idle loop of a session, its timeouts and what it logs.
- The classifier and its prompts, authentication results, command mail and SMTP replies: their decisions are functions of the session state. So is the attachment policy in a session by itself; `AttachmentPolicy` puts the scanner in its place, with header lookup as a function.
- Parsing of configuration, alias files and command mail; regular expressions and Received headers in the replay tool.
- Decoders for MIME, ZIP, TAR, GZIP, BZIP2, deflate and transfer encodings, media types, attachment file names, script interpreters and Unicode: functions in `Env`.
- Readers that yield an endless stream: a decoder yields a finite one, of which at most the size limit is kept.
- Sockets, signals, permissions and ownership of files.
