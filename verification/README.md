# A verified model of a pull-through range cache

The repository is a cache in front of slow object stores. It keeps whole objects
under a byte budget (the magazine), keeps parts of objects as sidecar files (the
staged ledger), lets many viewers follow one download while it is still growing
(a flight), answers S3 listings page by page, and admits signed, rate-limited
requests. This project models the stateful pieces of that program and proves what
they promise over every input, every run or every interleaving.

`dafny verify dfyconfig.toml` checks the whole project. Dafny's integers are
unbounded; where the program saturates at 64 bits the model says so.

## How it is laid out

| module | what it holds |
|---|---|
| `Spans`, `Compaction`, `Rows` | one key's interval row as a value: insertion, the 4096-interval ceiling, decay, heat, and whole histories |
| `CoverageRecord`, `StagedLedger` | the same row and the ledger as classes whose methods update fields in place, each proved against the value form |
| `SegmentNames` | how spans are named on disk, what a name reads back to, and the listing by name prefix |
| `LedgerRows` | what each ledger operation writes, field by field |
| `LedgerClaims`, `LedgerRuns` | the ledger against a disk of files: each operation, then whole runs |
| `Flight`, `FlightRuns`, `FlightRace`, `Pump`, `Registry` | a download: writer and readers interleaved, what every run gives, runs that end badly, the copy loop, and the single-flight registry |
| `Magazine`, `MagazineState`, `Leases` | budget eviction, reaping, pressure relief, the byte account, and read leases |
| `Paging`, `Pages` | listing order, tokens, and following pages |
| `CanonicalQuery`, `AmzDate` | the SigV4 canonical query and civil dates |
| `SessionBudgets`, `Inflight`, `AccessClock` | sliding windows, the coalescer with cooldown, the sharded access clock |
| `Options`, `Saturating`, `Octets`, `Seqs`, `Sums`, `Sorting`, `Lex` | shared vocabulary |

Code that changes state step by step is a class with `modifies` clauses, or a
method with a loop, proved against a function on values; the theorems are about
that function. Code that several tasks run at once is a step relation, and the
theorems quantify over every sequence of steps.

## Where the code and its own rules part

Each of these is kept as the code has it. The first name is a lemma at an input that
shows it, the second the lemma that says exactly when the rule does hold.

- The ledger's rule that it never claims bytes nobody can serve
  (src/cache/ledger.rs:15-22) fails where it goes by the names a listing shows instead
  of by what the key's files hold: when a row is rebuilt from the survivors, and when a
  span whose own file is gone is adopted because other names cover it. A name misleads
  when its file is short (`ShortFileOverclaims` and `RebuildHonoredIff`,
  `AdoptOverclaims` and `AdoptUnionIff`), and when it is another key's: the listing is
  by name prefix, so "x.tar" lists every file of "x.tar.gz" (`KinOverclaims`,
  `ListingExactIff`).
- Resetting a key deletes by the same prefix, and leaves the other key's row claiming
  files that are gone (`ResetOrphans`, `ForgetHonoredIff`).
- A key that is not plain ASCII does not survive its file name, so the startup
  inventory, which measures and is harmless to short files, files its bytes under
  another key (`RestartMisfiles`; `RoundTripIff` and `RestartHonoredIff`).
  `RunHonoredIff` puts all these conditions together over whole runs.
- A row rebuilt from overlapping or empty files is not a well-formed interval set
  (`OverlapMalforms`, `RebuiltWellFormedIff`); it still never claims more than the
  names (`RebuiltBytes`, `CompactBounds`).
- Sealing over a name that already had bytes makes the staged account drift
  (`ResealDrifts`, `SealTracksDiskIff`); over whole runs, `RunExactIff`.
- What is sent on the progress channel while nobody holds a receiver is lost. A driver
  can finish, guard included, with nothing terminal to be seen, or be seen as Failed
  with its object sealed and installed (`SilentEnd` and `SealedSeenAsFailed`,
  `EndSeenIff`).
- A reader can end cleanly having missed bytes: its zero-byte read and its check
  for Done are two steps, and the writer may finish between them
  (`ShortCleanEnd`, `CleanEndCompleteIff`).
- A tombstone written over a positive row leaves that row's bytes in
  `total_bytes` (`TombstoneLeaks`, `RunBalanced`).
- An install reads the old size under one guard and writes under another; two
  installs of one key can count its bytes twice (`RacingInstallsOvercount`,
  `InstallGapIff`; over whole runs, `SplitRunExactIff`).
- Listing with start-after and a delimiter forgets the filter for prefixes after
  the first page (`StartAfterForgets`, `StartAfterExactIff`), and two files with one
  key can lose one of them at a page boundary (`TwinKeyLost`,
  `EveryPagingCompleteIff`).
- A lease that ends when the clock reads zero gets no grace (`ZeroClockLosesGrace`,
  `RuleHoldsIff`).

## Model

| member | source | states |
|---|---|---|
| `Spans.InsertBytes` | src/cache/ledger.rs:105-137 | inserting a range into any start-ordered row, overlapping or not, keeps the order and makes the byte set exactly the old bytes plus the range |
| `Spans.InsertIsMergeIn` | src/cache/ledger.rs:105-137 | the local insert-and-merge equals the simple definition that sorts the intervals into those before, those overlapping and those after the range and joins the overlapping ones |
| `Spans.InsertParts` | src/cache/ledger.rs:113-135 | an insertion replaces one contiguous block, exactly the intervals that overlap the range, by their join, and leaves both sides as they were |
| `Spans.AbsorbBytes` | src/cache/ledger.rs:124-129 | the growing merge loop neither loses nor invents a byte |
| `Compaction.InsertWellFormed` | src/cache/ledger.rs:105-137 | sorted, non-empty and non-overlapping intervals stay so across an insertion |
| `Compaction.MergePassProgress` | src/cache/ledger.rs:185-206 | a halving pass shortens the row exactly when two neighbours touch and otherwise changes nothing: the termination argument of the ceiling |
| `Compaction.MergePassKeepsMeaning` | src/cache/ledger.rs:185-206 | a halving pass never changes the maximal touching runs a row stands for, with their latest stamps and summed reads |
| `Compaction.MergePassWellFormed` | src/cache/ledger.rs:185-206 | a halving pass keeps the shape, the byte set and the total read count |
| `Compaction.CoalesceExact` | src/cache/ledger.rs:174-206 | fusing all touching runs keeps every byte and every read and leaves only gapped intervals |
| `Compaction.MergePassGroups` | src/cache/ledger.rs:185-206 | each interval a halving pass writes sums up one chain of touching intervals: their hull, the latest of their stamps, all their reads |
| `Compaction.CoalesceGroups` | src/cache/ledger.rs:174-206 | so does each interval of the fully fused row, over maximal chains |
| `Compaction.InsertHeat` | src/cache/ledger.rs:123-136 | an insertion keeps the total of recorded reads |
| `Compaction.JoinAllHeat` | src/cache/ledger.rs:123-136 | the new interval has the reads of the intervals it swallowed |
| `Compaction.DropColdestExact` | src/cache/ledger.rs:209-213 | a cold drop of n splits the row into n intervals and the survivors, every dropped one colder than every survivor, equal stamps by lower offset |
| `Compaction.DropColdestShrinks` | src/cache/ledger.rs:209-213 | on any row whatever, a cold drop only removes intervals, the number asked for, and restores start order |
| `Compaction.CompactExact` | src/cache/ledger.rs:164-181 | the ceiling in full: at most 4096 intervals; the same runs when there are at most 4096 of them, else exactly the runs minus the coldest surplus |
| `Compaction.CompactKeepsBytesIff` | src/cache/ledger.rs:164-181 | compaction never adds a byte, and keeps the byte set if and only if the row has at most 4096 touching runs; then it keeps the read total too |
| `Compaction.CompactBounds` | src/cache/ledger.rs:174-181 | even on a row of overlapping intervals compaction ends under the ceiling, in start order, claiming nothing new |
| `Rows.FreshMembers` | src/cache/ledger.rs:220-237 | decay keeps exactly the intervals whose stamp is at or after the cutoff |
| `Rows.FreshTwice` | src/cache/ledger.rs:220-237 | decaying by one cutoff and then a later one is decaying by the later one |
| `Rows.DecayIff` | src/cache/ledger.rs:220-237 | decay keeps exactly the intervals read within the last window, and a zero window keeps the row as it is |
| `Rows.DecayLater` | src/cache/ledger.rs:220-237 | decaying at t1 and then at t2 >= t1 equals decaying at t2 alone, for every window, zero included |
| `Rows.CoveredCountsBytes` | src/cache/ledger.rs:239-241 | the coverage figure is the number of distinct bytes the row holds |
| `Rows.InsertExplained` | src/cache/ledger.rs:105-137 | if every interval is the union of the ranges staged inside it with their latest stamp, the same is true after one more range |
| `Rows.NeighbourUntouched` | src/cache/ledger.rs:105-137 | an interval that only touches the new range comes through unchanged, so a fresh neighbour never revives a stale one |
| `Rows.DecayExplained` | src/cache/ledger.rs:220-237 | decay drops an interval if and only if there is a window and every range staged inside it was last read longer ago than that, and what is left is still explained by the ranges it kept |
| `Rows.CreditBytes` | src/cache/ledger.rs:485-497 | crediting a read moves no interval boundary: same bytes, same order, same shape |
| `Rows.CreditOne` | src/cache/ledger.rs:485-497 | a read adds one, saturating, to each interval it shares a byte with, and changes nothing else of any |
| `Rows.CreditHeat` | src/cache/ledger.rs:485-497 | short of saturation a read adds to the total as many as it shares bytes with intervals, an empty read none |
| `Rows.Run` | src/cache/ledger.rs:105-237 | after any history of staging, expiry and reads the row is sorted, non-empty per interval, non-overlapping and at or under 4096 intervals |
| `Rows.RunNeverOverclaims` | src/cache/ledger.rs:105-237 | after any history, whatever compaction and decay it met, every byte the row claims was staged |
| `Rows.RunExact` | src/cache/ledger.rs:105-213 | until a cold drop or an expiry with a window the row claims exactly the staged bytes, both directions |
| `Rows.RunExplained` | src/cache/ledger.rs:105-137 | at every point of every history without compaction each interval is the union of the ranges it remembers and carries their latest stamp |
| `CoverageRecord.Coverage.AddInterval` | src/cache/ledger.rs:105-137 | the in-place insertion with its partition point, merge loop, drain and compaction yields the row the value form gives |
| `CoverageRecord.Coverage.OpenSlot` | src/cache/ledger.rs:113-122 | the merge starts from the interval before the insertion point when it overlaps the range, else from the range put in its place, and the tail is untouched |
| `CoverageRecord.Coverage.MergeOnward` | src/cache/ledger.rs:123-129 | the merge loop stops at the first interval past its growing end, having joined all before it |
| `CoverageRecord.Coverage.CompactRow` | src/cache/ledger.rs:174-181 | the compaction loop terminates with the compacted row |
| `CoverageRecord.Coverage.MergeTouchingOnce` | src/cache/ledger.rs:185-206 | the pass reports a merge exactly when two neighbours touched |
| `CoverageRecord.Coverage.DropColdestSpans` | src/cache/ledger.rs:209-213 | two stable sorts and a cut leave the row without its n coldest intervals |
| `CoverageRecord.Coverage.AdoptFiles` | src/cache/ledger.rs:146-162 | the row becomes the surviving files with inherited policy, compacted |
| `CoverageRecord.Coverage.DecayAndCovered` | src/cache/ledger.rs:220-237 | the in-place decay equals the filter and returns what is left covered |
| `CoverageRecord.InheritsFrom` | src/cache/ledger.rs:149-160 | a file inside one prior interval takes exactly that interval's stamp and count |
| `CoverageRecord.InheritsNothing` | src/cache/ledger.rs:149-160 | a file no prior interval contains starts at the present with no reads |
| `CoverageRecord.RebuiltBytes` | src/cache/ledger.rs:146-162 | a rebuilt row claims exactly the union of the file extents |
| `CoverageRecord.RebuiltWellFormedIff` | src/cache/ledger.rs:146-162 | a rebuilt row is well formed if and only if the files are non-empty, in order and apart |
| `CoverageRecord.OverlapMalforms` | src/cache/ledger.rs:146-162 | two overlapping files give a row with two overlapping intervals |
| `StagedLedger.SweepIff` | src/cache/ledger.rs:379-390 | for a non-empty span the greedy sweep says yes if and only if the union of the files, sorted by start and possibly overlapping or nested, names every byte |
| `StagedLedger.Ledger.DiskCovers` | src/cache/ledger.rs:379-390 | the loop computes the greedy sweep |
| `StagedLedger.Ledger.Seal` | src/cache/ledger.rs:305-338 | a missing or empty file changes nothing; otherwise the measured part is claimed, stamped, versioned and aged, and the account grows by the measured length |
| `StagedLedger.Ledger.SealRow` | src/cache/ledger.rs:325-334 | absent version values leave the row's own, the claim is added before the window is applied |
| `StagedLedger.Ledger.Claim` | src/cache/ledger.rs:348-368 | what may be claimed: the measured part of the file, or the whole span with no bytes to account when the other files cover it, or nothing |
| `StagedLedger.Ledger.Adopt` | src/cache/ledger.rs:348-375 | the claim is recorded and accounted, or the ledger is untouched and the answer is no |
| `StagedLedger.Ledger.AdoptAll` | src/cache/ledger.rs:395-413 | rows and account become those of the inventory alone, whatever was there before |
| `StagedLedger.Ledger.Forget` | src/cache/ledger.rs:419-423 | one row goes, the account falls by the freed bytes, nothing else moves; `LedgerRuns.StepHonoredIff` and `LedgerRuns.StepExactIff` say what that does to claims and account |
| `StagedLedger.Ledger.ReAdopt` | src/cache/ledger.rs:429-439 | the account falls by the freed bytes and an existing row is re-derived from the survivors |
| `StagedLedger.Ledger.CreditRead` | src/cache/ledger.rs:485-497 | every interval a read overlaps gains one, saturating; an empty read and an unknown key change nothing |
| `StagedLedger.Ledger.DecayedCoverage` | src/cache/ledger.rs:501-507 | the row ages in place and the answer is what is left covered, zero for an unknown key |
| `LedgerRows.InsertHouses` | src/cache/ledger.rs:105-137 | on any row in start order an insertion leaves the range in one interval at least as fresh as its stamp |
| `LedgerRows.SealMeans` | src/cache/ledger.rs:305-338 | a seal writes one row, lets every other be, and accounts the file's length |
| `LedgerRows.SealedFields` | src/cache/ledger.rs:325-334 | the sealed row has the version the transfer reports, the old one where it says nothing, and a fresh age |
| `LedgerRows.SealedSpans` | src/cache/ledger.rs:332-334 | the sealed row holds exactly the recently read intervals of the row with the span added, the sealed range among them |
| `LedgerRows.SealClaims` | src/cache/ledger.rs:305-338 | below the ceiling a seal without a window adds exactly the bytes that are there, and with any window the sealed range stands in one interval at least as fresh as the seal |
| `LedgerRows.SealRefusedIff` | src/cache/ledger.rs:316-323 | a seal is refused if and only if the file is missing or empty or the span is |
| `LedgerRows.AdoptClaimIff` | src/cache/ledger.rs:348-368 | a claim is made if and only if a non-empty file is there for a non-empty span, with its length, or the other names cover every byte, with nothing to account |
| `LedgerRows.AdoptMeans` | src/cache/ledger.rs:348-375 | an adoption adds exactly the claimed bytes below the ceiling, touches the row, and leaves the version and every other row alone |
| `LedgerRows.ReAdoptMeans` | src/cache/ledger.rs:429-439 | a row re-derived from at most 4096 files claims exactly what they name and keeps its version and age; a key without a row gets none |
| `LedgerRows.FoundMeans` | src/cache/ledger.rs:400-411 | the startup inventory keeps the first version it learns of a key |
| `LedgerRows.QuietMeans` | src/cache/ledger.rs:444-507 | which field of which row touch, served, set_version, decay and dropping an empty row may write, and what |
| `SegmentNames.EscapePrefixIff` | src/cache/store.rs:266-268 | escaped keys are read from the left in one way only: one escaped key starts another exactly when the keys do |
| `SegmentNames.UnescapeKey` | src/cache/store.rs:270-296 | the loop over bytes decodes percent triples and takes every other byte for a character, or refuses |
| `SegmentNames.UnescapeEscape` | src/cache/store.rs:266-296 | every escaped key unescapes, to the key with each non-ASCII character replaced by what its bytes look like |
| `SegmentNames.RoundTripIff` | src/cache/store.rs:266-296 | a key is read back from its file name if and only if it is plain ASCII |
| `SegmentNames.ParseFileName` | src/cache/store.rs:299-328 | every name the program makes parses back to its extent, whatever dots and dashes the key has |
| `SegmentNames.FileNameInjective` | src/cache/store.rs:299-301 | no two spans share a file |
| `SegmentNames.ListedIff` | src/cache/store.rs:405-414 | a file is listed for a key if and only if its own key is that one or extends it by a dot |
| `LedgerClaims.ListingExactIff` | src/cache/store.rs:405-428 | a key's listing is its own files if and only if no other key on disk extends it by a dot |
| `LedgerClaims.SealHonored` | src/cache/ledger.rs:305-338 | sealing claims no byte outside the key's files, however short the file that landed is |
| `LedgerClaims.AdoptMeasuredHonored` | src/cache/ledger.rs:348-375 | adopting a file that is there claims no byte outside the key's files, however short it is |
| `LedgerClaims.AdoptUnionIff` | src/cache/ledger.rs:348-390 | adopting a span whose own file is gone stays backed if and only if it is refused or, below the ceiling, every byte of the span that a short file or another key's file names is held for the key; above it, every such byte the row still claims |
| `LedgerClaims.AdoptOverclaims` | src/cache/ledger.rs:353-362 | two files cover a span by name, one of them short: the span is adopted whole and claims byte 70, which no file holds |
| `LedgerClaims.ReAdoptHonoredIff` | src/cache/ledger.rs:429-439 | deleting any files and re-deriving one key's row from its listing keeps every claim of every key backed if and only if no other row lost a byte it claims and the key has no row or its rebuild is spared |
| `LedgerClaims.ForgetHonoredIff` | src/cache/staging.rs:420-428 | deleting any files and dropping one row keeps the others backed if and only if none of them lost a byte it claims that no other file of its key holds |
| `LedgerClaims.AloneSpares` | src/cache/staging.rs:420-428 | a reset spares every other row when no key on disk extends the reset one by a dot |
| `LedgerClaims.ResetOrphans` | src/cache/staging.rs:420-428 | resetting "x.tar" deletes the file of "x.tar.gz" and leaves its row claiming it |
| `LedgerClaims.LandHonoredIff` | src/cache/ledger.rs:305-323 | a file landing under a new name or over an old one, longer or shorter, keeps claims backed if and only if the row claims none of the bytes it takes away that no other file holds |
| `LedgerClaims.QuietHonored` | src/cache/ledger.rs:444-507 | touch, served, set_version, decay and dropping an empty row keep all claims backed and never move the account |
| `LedgerRuns.AdoptAllPart` | src/cache/ledger.rs:395-413 | at every prefix of the startup inventory the account is the length of the files read so far, whatever keys they are filed under |
| `LedgerRuns.RestartExact` | src/cache/ledger.rs:395-413 | from any ledger state at all the inventory makes the account the length of the disk |
| `LedgerClaims.AdoptAllBytes` | src/cache/ledger.rs:395-413 | a row built from the inventory claims nothing the inventory does not, and with at most 4096 files of its key everything it does |
| `LedgerClaims.RestartHonoredIff` | src/cache/store.rs:362-402 | a restart leaves every claim backed, short files included, if and only if every byte filed under a key its file does not belong to is held for that key too |
| `LedgerClaims.AsciiRestart` | src/cache/store.rs:362-402 | with plain ASCII keys a restart leaves every claim backed |
| `LedgerClaims.RestartMisfiles` | src/cache/store.rs:362-402 | a file of a one-letter accented key is filed under a two-letter key that holds nothing |
| `LedgerRuns.CountOne` | src/cache/ledger.rs:335-337 | counting one uncounted file adds exactly its length and never saturates |
| `LedgerRuns.FreeCounted` | src/cache/ledger.rs:419-432 | freeing the measured length of counted files never saturates and leaves the account equal to what remains counted |
| `LedgerRuns.SealTracksDiskIff` | src/cache/ledger.rs:305-338 | after a file lands under a name and is sealed the account equals the disk if and only if the name held no bytes before (or, for a refused span, the length did not change) |
| `LedgerRuns.ResealDrifts` | src/cache/ledger.rs:305-338 | ten bytes sealed again under a name already counted: ten on disk, twenty in the account |
| `LedgerRuns.StepHonoredIff` | src/cache/ledger.rs:305-507 | every step of any run (land anywhere at any length, seal, adopt, delete any files and re-derive or forget, quiet, restart) keeps claims inside the files if and only if it takes no claimed byte away, meets no astray byte in a listing and misfiles none at a restart |
| `LedgerRuns.RunHonoredIff` | src/cache/ledger.rs:305-507 | over every run from an empty node, no row ever claims a byte outside its key's files if and only if every step met that condition |
| `LedgerRuns.RowIsHistory` | src/cache/ledger.rs:305-507 | in every run, until its row is re-derived from files, a key's row is exactly what its seals, adoptions, reads and expiries make of an empty one |
| `LedgerRuns.RowClaimsExactly` | src/cache/ledger.rs:305-507 | so while nothing expires and no cold drop is forced the row claims exactly the bytes sealed and adopted, both directions, over whole runs |
| `LedgerRuns.PlainKeysBacked` | src/cache/staging.rs:420-428 | with plain ASCII keys none of which extends another by a dot, restarts and resets never leave a claim unbacked |
| `LedgerRuns.StepExactIff` | src/cache/ledger.rs:305-439 | every step keeps the account equal to the counted files if and only if counted files keep their length, are not counted again, and only counted bytes are freed |
| `LedgerRuns.RunExactIff` | src/cache/ledger.rs:305-439 | over every run the account is at every point the length of the files counted so far if and only if every step kept the books, and then the total on disk once every file is counted |
| `LedgerRuns.RunOrdered` | src/cache/ledger.rs:105-213 | every row stays in start order through every run, so no run is shut out |
| `LedgerClaims.RebuildHonoredIff` | src/cache/store.rs:418-428 | rebuilding from whatever the listing names, overlapping and nested files and other keys' included, claims only bytes the key has if and only if, up to 4096 files, every byte a short file or another key's file names is held for the key; above that, every such byte the ceiling leaves |
| `LedgerClaims.AloneRebuildIff` | src/cache/ledger.rs:429-439 | for a key no other extends by a dot, up to 4096 files, a rebuild is spared if and only if every byte its own short files are missing is held by another of its files |
| `LedgerClaims.ShortFileOverclaims` | src/cache/ledger.rs:429-439 | forty bytes under a name that promises a hundred: the rebuilt row claims byte 70, which no file holds |
| `LedgerClaims.KinOverclaims` | src/cache/ledger.rs:429-439 | "x.tar" rebuilt beside "x.tar.gz" claims byte 55, which only the other key has, with no file short |
| `Flight.StepKeeps` | src/cache/flight.rs:252-387 | no step of the writer or of any reader breaks what the protocol keeps for the writer and for every reader |
| `Flight.RunKeeps` | src/cache/flight.rs:252-501 | the protocol's invariant holds at every point of every interleaving with any number of readers |
| `FlightRuns.ReadersGetThePayload` | src/cache/flight.rs:252-387 | at every point of every interleaving a reader's output is exactly the payload from its start, at most its length, and it ends cleanly short of that only after Done |
| `FlightRuns.CleanEndCompleteIff` | src/cache/flight.rs:356-383 | a reader that ended at end of file has everything if and only if its last zero-byte read saw the whole file or it started past the end; a zero-byte read after the seal always qualifies |
| `FlightRace.ShortCleanEnd` | src/cache/flight.rs:356-383 | an explicit run in which a reader ends cleanly with nothing of a one-byte object |
| `FlightRuns.DoneMeansSealed` | src/cache/cache.rs:2152-2209 | Done is out only after the rename and the metadata row, with every byte readable and the promised length met exactly |
| `FlightRuns.TerminalForever` | src/cache/flight.rs:168-180 | once Done or Failed is published it stays, whoever moves |
| `FlightRuns.EveryDriverEnds` | src/cache/flight.rs:168-180 | no driver stops half-way: at most three steps a byte and nine more, and when none is left it has passed the guard |
| `FlightRuns.EndSeenIff` | src/cache/flight.rs:168-180 | in every run the end is seen as Done or Failed if and only if somebody held a receiver when the driver or the guard sent a last word, and as Done if and only if somebody did when Done was sent |
| `FlightRace.SilentEnd` | src/cache/flight.rs:66-78 | a run in which the waiting caller leaves at Meta and the whole download falls into the gap: sealed, installed, driver gone, and the late reader waits on Meta |
| `FlightRace.SealedSeenAsFailed` | src/cache/flight.rs:168-180 | a run in which Done is sent to nobody and the guard tells a newcomer Failed, the object being sealed and installed |
| `FlightRuns.BrokenFails` | src/cache/flight.rs:168-180 | a driver that broke, by error or panic, is never afterwards seen as Done, whoever moves |
| `Pump.PumpAndSeal` | src/cache/flight.rs:397-501 | for every chunking and every fault: never a byte past the promise; a seal only of exactly the promised bytes, or of a whole stream that ended when nothing was promised, and always that without faults; the rename is the very last event and the full size had been announced before it |
| `Pump.PumpDrivesFlight` | src/cache/flight.rs:397-501 | every pump is, event for event, a path of writer steps the flight allows: the steps read back are its trace, ending sealed when it says sealed and broken otherwise |
| `Pump.AnnounceAll` | src/cache/flight.rs:461-465 | after the loop the last watermark is the full size |
| `Pump.Copy` | src/cache/flight.rs:426-460 | the bytes written and the bytes left always make up the stream; the loop stops only because the promise is met, the stream ended, or something broke |
| `Pump.Announce` | src/cache/flight.rs:442-459 | after each write the last watermark is the total or lags it by less than one interval, and the first write is announced at once |
| `Pump.Allowance` | src/cache/flight.rs:425-431 | the next read can never overshoot the promise, and asks for nothing exactly when it is met |
| `Pump.WatermarksGrow` | src/cache/flight.rs:456-465 | published watermarks strictly increase |
| `Pump.TakeBody` | src/cache/flight.rs:426-442 | taking part of a frame loses no byte and does not change how the stream ends, so chunking is invisible |
| `Pump.CopyMeans` | src/cache/flight.rs:429-478 | where the copy stopped decides whether the stream must be sealed or refused |
| `Registry.RunKeeps` | src/cache/flight.rs:106-180 | at every point of every interleaving the map is exactly the flights whose driver has not yet removed itself |
| `Registry.OneFlightPerKey` | src/cache/flight.rs:106-132 | two registered flights never share a key |
| `Registry.RemovedByItsOwnDriver` | src/cache/flight.rs:106-132 | an entry leaves the map only by its own driver's last step, once the driver has returned and the guard has run: removal by key never takes a successor's entry |
| `Registry.JoinersMeet` | src/cache/flight.rs:106-132 | two callers of one key in any reachable state get the same flight, of that key |
| `Registry.EndSeenIff` | src/cache/flight.rs:168-180 | in every run, panics included, a flight is seen as Done or Failed if and only if somebody held a receiver when its driver or the guard sent a last word |
| `Registry.EndStays` | src/cache/flight.rs:168-180 | what was seen of a flight's end is never replaced |
| `Magazine.OnePassIsOneByOne` | src/cache/magazine.rs:101-169 | the one pass over the sorted candidates evicts what removing a least-eligible row and re-checking both budgets would: each victim was needed, and it stops inside both budgets or out of candidates |
| `Magazine.OneByOneUnique` | src/cache/magazine.rs:101-169 | with distinct stamps that policy admits a single victim list |
| `MagazineState.SweepMeans` | src/cache/magazine.rs:101-169 | a budget sweep takes least recently accessed objects, the last of them still needed, until both budgets hold or nothing evictable is left |
| `MagazineState.VictimsAreOldest` | src/cache/magazine.rs:137-152 | no object that could have gone and stayed was accessed before one that went |
| `MagazineState.PressureOldest` | src/cache/magazine.rs:183-211 | under pressure only strays go, oldest access first |
| `MagazineState.ReapIff` | src/cache/magazine.rs:215-244 | a tombstone is reaped from the moment it was to last until, an unspared object once its whole time has passed without an access, nothing else |
| `MagazineState.TombstoneMeans` | src/cache/magazine.rs:351-370 | a tombstone holds no bytes, is never swept for budget, and is reaped from its own time on and not before |
| `Magazine.StraysNeverMatter` | src/cache/magazine.rs:88-169 | with the count cap off, adding or removing strays of any size changes neither candidates nor order nor victims |
| `Magazine.RemoveShortfalls` | src/cache/magazine.rs:119-167 | evicting a row brings the byte and entry shortfalls down by exactly its share, without clipping |
| `Magazine.StraysWithin` | src/cache/magazine.rs:88-97 | all bytes split into stray bytes and the rest, so the budgeted figure never clips on an accounted state |
| `MagazineState.CacheState.StraysHeld` | src/cache/magazine.rs:88-97 | the walk over the rows finds the bytes of resident strays |
| `MagazineState.CacheState.EvictPick` | src/cache/magazine.rs:101-169 | the victims are a prefix of the candidates in eligibility order, cut where both shortfalls are met, and exactly those rows leave |
| `MagazineState.CacheState.TakeWhileOver` | src/cache/magazine.rs:154-168 | the loop takes the shortest prefix that meets both shortfalls, or everything |
| `MagazineState.CacheState.PickStraysForPressure` | src/cache/magazine.rs:183-211 | only strays go, oldest first, the shortest prefix that frees the need |
| `MagazineState.CacheState.ReapCollect` | src/cache/magazine.rs:215-244 | exactly the expired unspared rows and the expired tombstones go, each once |
| `MagazineState.CacheState.Install` | src/cache/magazine.rs:299-348 | with nobody in between, the new row replaces the old one in the account, keeps its creation time, and what it pushed over budget is swept |
| `MagazineState.CacheState.InstallRead` | src/cache/magazine.rs:310-331 | the first guard sees the size to give up and the creation time to keep |
| `MagazineState.CacheState.InstallWrite` | src/cache/magazine.rs:335-346 | the second guard gives up the size it was told, whatever happened meanwhile, then sweeps |
| `MagazineState.InstallGapIff` | src/cache/magazine.rs:310-346 | an install whose halves are apart moves the total against the rows if and only if the row changed size in between, save for a row that is all there is to give up |
| `MagazineState.SplitRunExactIff` | src/cache/magazine.rs:299-451 | over every run whose installs are split and interleave with everything else, the total is the row bytes at every point if and only if each install found the size it had seen (or a row that is all there is) and nothing else overwrote bytes |
| `MagazineState.RacingInstallsOvercount` | src/cache/magazine.rs:310-346 | two installs of one absent key that both read before either writes: ten bytes held, twenty counted |
| `MagazineState.CacheState.InstallNegative` | src/cache/magazine.rs:351-370 | a tombstone takes the row's place and the total stays as it was; `MagazineState.RunBalanced` says what that costs |
| `MagazineState.SweepSpares` | src/cache/magazine.rs:101-169 | no budget sweep takes a spared key, a stray or a tombstone |
| `MagazineState.RemoveRowsEntries` | src/cache/magazine.rs:154-168 | removing rows one at a time removes exactly that set |
| `MagazineState.ApplyBalanced` | src/cache/magazine.rs:101-244 | every operation keeps the total equal to the row bytes plus the bytes overwritten unsubtracted |
| `MagazineState.RunBalanced` | src/cache/magazine.rs:299-451 | in every serial run the total is the row bytes plus the overwritten bytes: it never under-counts, no subtraction clips, and it is exact if and only if no tombstone and no rebuilt row was written over a row with bytes |
| `MagazineState.TombstoneLeaks` | src/cache/magazine.rs:351-370 | a ten-byte row replaced by a tombstone leaves ten bytes in the total and none in the rows |
| `Leases.LeaseTable.Acquire` | src/cache/leases.rs:54-64 | one more holder of the key, its end time kept; `Leases.ProtectedExactly` says the count is the live guards |
| `Leases.LeaseTable.Release` | src/cache/leases.rs:113-122 | one holder fewer, the end time set only by the last; `Leases.ReleaseFindsItsEntry` says there is always one to count down |
| `Leases.LeaseTable.Protected` | src/cache/leases.rs:79-86 | the snapshot is taken over the unpruned table although the table is pruned on the way |
| `Leases.LeaseTable.IsProtected` | src/cache/leases.rs:88-101 | a single key is answered as the snapshot would; `Leases.RuleHoldsIff` says when that is the rule |
| `Leases.StepKeeps` | src/cache/leases.rs:54-122 | the pruned table goes on standing for the unpruned history of guards and end times |
| `Leases.ProtectedExactly` | src/cache/leases.rs:54-122 | in every run, at every later moment, the protected keys are exactly those with a live guard or let go at a positive clock less than the grace ago, and each count is the number of live guards: pruning cannot be observed |
| `Leases.RuleHoldsIff` | src/cache/leases.rs:88-101 | the table answers by the grace rule for a key if and only if the key was not let go at clock zero with its grace still running |
| `Leases.ReleaseFindsItsEntry` | src/cache/leases.rs:113-122 | no dropped guard misses its entry or counts below zero |
| `Leases.ZeroClockLosesGrace` | src/cache/leases.rs:88-96 | a lease ended at clock zero is protected at no later time |
| `Leases.LeasedKeySurvives` | src/cache/magazine.rs:101-169 | a key the rule holds, let go at a positive clock if at all, is never taken by a budget sweep, and by the reaper only as a tombstone |
| `Paging.SelectItems` | src/list.rs:277-313 | one pass, two sorts, a dedup and the start-after filter give the selected listing |
| `Paging.ListingOrder` | src/list.rs:277-302 | prefixes always strictly ascend, files are in key order, strictly when no two share a key |
| `Paging.DedupAscends` | src/list.rs:296-302 | dedup of a sorted list keeps its elements and makes it strictly ascending |
| `Lex.LessIff` | src/list.rs:295-309 | keys are compared by their first differing character, a beginning before what it begins |
| `Pages.OpenIff` | src/list.rs:58-87 | a token opens to a payload if and only if it is, to the character, the one the server signs and wraps for it |
| `Pages.TokenRoundTrip` | src/list.rs:325-340 | the token of a truncated page, through signing, envelope and UTF-8, resumes right after that page's last item |
| `Pages.PageAdvances` | src/list.rs:446-516 | a truncated page shows something, leaves strictly less, and with distinct keys leaves exactly what it did not show |
| `Pages.FollowShowsEverything` | src/list.rs:446-525 | from any resume point, following tokens with any caps shows everything still to come once and in order |
| `Pages.FollowMarksTheEnd` | src/list.rs:446-525 | IsTruncated is false on exactly the last page and no page exceeds its cap |
| `Pages.ZeroCapEnds` | src/list.rs:456-469 | asking for no items gives an empty last page |
| `Pages.FollowShowsAtMost` | src/list.rs:446-525 | even with duplicate keys following tokens ends and shows no more items than were still to come |
| `Pages.SnapshotPages` | src/list.rs:277-525 | from a snapshot with distinct file keys and no start-after, a client following the tokens it is given is served each matching file once by key, then each matching directory once, with the end marked |
| `Pages.ServeFollows` | src/list.rs:325-525 | signing, wrapping, opening and selecting afresh at every request changes nothing: no token the server hands out is refused, and the pages are those of walking the resume points |
| `Pages.TwinKeyLost` | src/list.rs:481-492 | a page ending on the first of two files with one key loses the second |
| `Pages.EveryPagingCompleteIff` | src/list.rs:446-525 | every choice of caps shows every item if and only if no two files share a key |
| `Pages.MarkerResumes` | src/list.rs:638-645 | a V1 NextMarker resumes where the V2 token of the same page would |
| `Pages.MarkersFollowTokens` | src/list.rs:325-350 | with a delimiter V1 markers and V2 tokens walk through the same pages |
| `Pages.MarkerIsTokenIff` | src/list.rs:341-350 | a marker resumes where the token would if and only if the page's last item ends with a slash just when it is a prefix |
| `Pages.ServeMarkersFollow` | src/list.rs:277-350 | from a snapshot whose directories are the keys ending with a slash, V1 markers walk through the pages of the resume points |
| `Pages.DialectsAgree` | src/list.rs:277-525 | over one such snapshot a V1 client following NextMarker and a V2 client following tokens are served the same pages |
| `Pages.StartAfterExactIff` | src/list.rs:303-312 | with start-after the pages show the filtered listing if and only if no prefix was filtered, or the first page reaches past the files, or it already shows everything |
| `Pages.StartAfterForgets` | src/list.rs:303-312 | one item a page, start-after equal to the only prefix: the last page shows it |
| `CanonicalQuery.UriEncode` | src/sigv4.rs:42-63 | the loop appends the byte-by-byte encoding to what was there |
| `CanonicalQuery.EncodeByteIs` | src/sigv4.rs:42-57 | the unreserved characters of section 2.3 of RFC 3986 stand for themselves, a slash does where it is not to be encoded, all else is a percent sign and two upper-case hex digits of its value |
| `CanonicalQuery.EncodeSnoc` | src/sigv4.rs:42-57 | the encoding is made byte by byte in order |
| `CanonicalQuery.DecodeEncode` | src/sigv4.rs:42-63 | the encoding is invertible, slashes encoded or not |
| `CanonicalQuery.EncodeNoSeparator` | src/sigv4.rs:42-63 | the encoding never emits an ampersand or an equals sign |
| `CanonicalQuery.BuildCanonicalQuery` | src/sigv4.rs:303-325 | filtering, encoding, sorting and joining in loops gives the canonical string |
| `CanonicalQuery.KeptCount` | src/sigv4.rs:304-310 | every pair is kept as often as it is given, the signature pair not at all when it is to be skipped |
| `CanonicalQuery.CanonicalOrder` | src/sigv4.rs:303-311 | the string joins the kept pairs, encoded, with names never descending and values never descending among equal names |
| `CanonicalQuery.JoinSnoc` | src/sigv4.rs:312-324 | joining writes name=value and an ampersand before each further pair |
| `CanonicalQuery.JoinUnambiguous` | src/sigv4.rs:312-324 | a joined string can be read back into one list of encoded pairs only |
| `CanonicalQuery.CanonicalIff` | src/sigv4.rs:303-325 | two pair lists have the same canonical query if and only if they are equal as multisets after the signature pair is dropped |
| `AmzDate.FormatParse` | src/sigv4.rs:125-173 | printing an accepted date gives back the very string that was parsed |
| `AmzDate.ParseFormat` | src/sigv4.rs:125-173 | every date the fields can hold and the parser would accept survives printing and parsing |
| `AmzDate.ParseIff` | src/sigv4.rs:125-165 | a text is accepted if and only if it has the sixteen-place shape and names a month and a day of at most 31, and its fields are the numbers at their places in order |
| `AmzDate.YearClosedForm` | src/sigv4.rs:176-189 | summing year lengths from 1970, forwards or backwards, equals the March-based closed form |
| `AmzDate.EraForm` | src/sigv4.rs:181-187 | the era arithmetic with truncating division equals the closed form, year zero included |
| `AmzDate.CivilIsSimple` | src/sigv4.rs:176-189 | the day count equals the plain sum of year and month lengths since 1970, for every year and month |
| `AmzDate.UnixIsSimple` | src/sigv4.rs:176-189 | the seconds are the days since 1970 of twenty-four counted hours each, and then the counted clock |
| `AmzDate.EpochIsZero` | src/sigv4.rs:176-189 | the first second of 1970 is zero |
| `AmzDate.NextDayIsADayLater` | src/sigv4.rs:176-189 | the next civil day is 86400 seconds later, across month, leap and century boundaries |
| `AmzDate.NextSecondIsOneLater` | src/sigv4.rs:176-189 | the next second is one later, across minutes, hours, days, leap days and centuries |
| `SessionBudgets.Window.PruneAt` | src/content_auth.rs:56-65 | the loop removes the leading buckets that have aged out |
| `SessionBudgets.Window.Used` | src/content_auth.rs:68-71 | what is reported is the total left after pruning |
| `SessionBudgets.Window.AddAt` | src/content_auth.rs:74-80 | the amount joins this second's bucket or opens it |
| `SessionBudgets.UsedIsTheTrailingSum` | src/content_auth.rs:56-80 | with a clock that never goes back the figure is the sum of everything added in (now - window, now] |
| `SessionBudgets.AddStands` | src/content_auth.rs:74-80 | a window goes on standing for its whole history as far back as a look can reach |
| `SessionBudgets.SessionTables.MakeRoom` | src/content_auth.rs:98-113 | below the cap nothing changes; at the cap every idle session goes, and only if that is not enough exactly the first of the live ones in drop order, as many as leave one place |
| `SessionBudgets.SessionTables.Oldest` | src/content_auth.rs:104-112 | the sessions dropped are the first by last-seen second, then by key |
| `SessionBudgets.SessionTables.Admit` | src/content_auth.rs:97-127 | the verdict is that of the session's own windows, no other kept session changes, and the table never exceeds its cap |
| `SessionBudgets.SessionTables.Observe` | src/content_auth.rs:129-137 | bytes are charged to a session in the table and to no other |
| `SessionBudgets.AdmitIff` | src/content_auth.rs:114-126 | a request is admitted if and only if fewer than `rps` were admitted in this second and fewer than the allowed bytes moved in the trailing minute |
| `SessionBudgets.NextTracks` | src/content_auth.rs:97-137 | every event keeps the windows in agreement with what really happened and the rate within its limit |
| `SessionBudgets.SessionWithinRate` | src/content_auth.rs:97-137 | over every run of the whole table with a forward clock, other sessions coming, going and being dropped, the table stays within its cap, no session was admitted more than its `rps` times in any second since it last entered, and its last-seen second is when it last asked or moved bytes |
| `SessionBudgets.EveryAdmissionIff` | src/content_auth.rs:97-127 | every request of every such run is admitted if and only if its session was admitted fewer than `rps` times this second and moved fewer than the allowed bytes in the trailing minute since it last entered |
| `SessionBudgets.TableKeeps` | src/content_auth.rs:97-137 | at every point of every such run each session's windows agree with what really happened to it |
| `SessionBudgets.BudgetKeysApart` | src/content_auth.rs:173-175 | distinct (credential, session) pairs never share a budget key, whatever the credential contains |
| `Inflight.StepKeeps` | src/inflight.rs:35-67 | every step keeps cells, callers and timers consistent: one runner, one execution, outcomes equal to the cell's value |
| `Inflight.OneOutcomePerCell` | src/inflight.rs:35-67 | callers that held one cell return one outcome, from one completed execution, however many were cancelled |
| `Inflight.OnlyItsOwnTimer` | src/inflight.rs:45-65 | a cell leaves the map only by a timer started for that very cell and only once filled |
| `Inflight.FilledForGood` | src/inflight.rs:40-44 | a filled cell's value never changes |
| `AccessClock.FoldBatch` | src/cache/cache.rs:680-697 | the loop writes each drained stamp to the row that has its key, and only there |
| `AccessClock.FoldExact` | src/cache/cache.rs:680-697 | after a fold each drained key that has a row is at its drained stamp, all other rows and the key set are as before |
| `AccessClock.DrainKeeps` | src/cache/cache.rs:331-339 | draining one shard while touches go on keeps every key's latest stamp findable |
| `AccessClock.FoldKeeps` | src/cache/cache.rs:680-697 | folding the batch keeps every key's latest stamp findable and rows at their latest folded stamp |
| `AccessClock.RunKeeps` | src/cache/cache.rs:313-344 | that holds at every point of every interleaving of touches, shard drains, folds, and rows installed and removed |
| `AccessClock.NoTouchLost` | src/cache/cache.rs:313-344 | at every point of every interleaving, rows being installed and removed meanwhile, a touched key's latest stamp is in its shard, in the batch, or folded, and then a row of that key carries it or the stamp of a later install |
| `AccessClock.FoldStepsBackIff` | src/cache/cache.rs:690-696 | a fold takes a row back behind the stamp it has if and only if the batch holds an older one |

## Left out

- Integer width of counts: read counts, byte sums and window totals are unbounded, so an overflow of a plain 64-bit addition (for instance summing merged read counts) is not modelled; saturating operations are.
- `LedgerRuns.RunHonoredIff`: deleting files and telling the ledger is one step; a crash or a read between the two is not modelled, nor are files in the directory that the program did not name.
- `LedgerRuns.RunExactIff`: assumes that the total length on disk is a 64-bit number.
- `Flight.RunKeeps`: another flight or an eviction that replaces the final path between Done and a late open is not modelled. The watermark may be published at any time during pumping, which includes every throttled schedule; the throttle itself is in `Pump`. The exits for a dropped sender are unreachable, because a reader holds the flight.
- `FlightRuns.EveryDriverEnds`: bounds the driver's steps and says how it ends; that the scheduler lets it take them is assumed.
- `MagazineState.RunBalanced`: takes each install whole; runs whose installs are split are `SplitRunExactIff`.
- `SessionBudgets.SessionWithinRate`: is about a session while it stays in the table; one dropped to make room starts again with empty windows.
- `Pages.OpenIff`: the authentication code, UTF-8 and base64 are parameters known only by their round trips and lengths, so unforgeability is not stated.
- Time budgets: stall timeouts are a fault that may strike a waiting reader at any moment, not a clock.
- Durability: fsync, the metadata store, file permissions, and what survives a power loss.
- Metadata strings of magazine rows (entity tag, content type, upstream) and their persistence.
- The watch set and pins: an arbitrary set joined to the protected keys.
- Which spans to stage or evict, playback sessions and window policy: decisions fed to the ledger, not modelled.
- Listing plumbing: query parsing, the page cap of 1000, V1 without a delimiter (which hands out no marker), XML rendering, the snapshot cache and its lifetime.
- SigV4 beyond the canonical query and dates: header canonicalisation, key derivation and its cache, HMAC and SHA-256.
- The content gate around the session budgets: the order of the prefix, method and expiry checks.
- The access clock's pending gauge, a number for health reports.
- HTTP handlers, metrics, configuration and the clients of the upstream stores: plumbing around the decisions modelled here.
- Serving staged bytes: the read path opens the files its listing names, so what is said here of listings bears on it, but the reads themselves are not modelled.
