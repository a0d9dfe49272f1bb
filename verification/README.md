# Which bytes go where

A model, with proofs, of the data core of `bit-cli-core`: the code that decides
which bytes land in which file. It covers four parts.

1. **The write-back storage.** Writes are combined into at most 8 held runs of
   under 1 MiB each, over a bounded set of file handles. Evicting a handle flushes
   runs, flushing opens files, and opening evicts again. `StorageSpec` says on
   values what every call does; the classes in `Coalescer`, `OpenSet` and `Storage`
   update their fields as the source does and are proved to reach those values.
   The main question is whether device and held runs together are the plain
   last-write-wins files a caller expects.
2. **The path planner.** Untrusted torrent paths are sanitised, cut and renamed
   until no two collide under case folding.
3. **Range and piece arithmetic.** Files and pieces over one linear payload,
   interval sets, equality of files from piece hashes, the allowed-fast set of
   BEP 6.
4. **Codecs and scanners.** Tracker announces and replies against the decoders of
   the loopback tracker (BEP 15), the resume sidecar, Metalink documents
   (RFC 5854), and the link scanner for HTML pages.

## Where the code and what is said of it part ways

- Last write wins does not hold of every write. A write of the region size passes
  through before overlapping held runs are looked at, and a run that fills is
  pushed out before an overlapping run found behind it. `AcceptIff` is the exact
  condition, `AcceptConfined` bounds the damage to the range of the write itself,
  and `PayloadPlay` shows that a download, writing slices of one payload, always
  meets the condition. `DownloadReads` is what the caller gets: it reads back the
  payload wherever it has written.
- A small write is buffered before its file is looked at. When the file turns out
  not to hold data, the write is refused and its run stays held (`AcceptCleanIff`).
  When every place is taken and it touches no held run, the oldest run is pushed
  out and lost (`LostFirst`, `LostRunExample`); the contents survive exactly when the
  device and the other runs have that run's bytes anyway (`RefusedIff`). A later
  write that pushes out the run left behind hears of the old refusal although its own
  bytes are taken (`BorrowedRefusal`), and a vectored write then never writes its
  second slice (`CutShortWrite`, `BorrowedRefusalExample`, `WriteVectoredIff`).
- The comments say that a read never misses a buffered byte. Between the moment
  another thread takes a run and the moment it writes it, a read that looks finds
  the old byte (`InFlightByteIsMissed`). `ReadIff` is the exact condition: every
  position of the range has landed or is held. Where each was accepted once, that is
  to say that no run in flight touches the range (`OnceIff`).
- A read of a hole beyond the device file but before a run held further on is
  refused (`HoleIsRefused`).
- A path with no surviving component gets `file-{index}` on every attempt, so the
  search never ends once that name is taken (`SettlesIff`, `PlanEndsIff`,
  `NeverEndsExample`). The model's loop stops there with the answer `NeverEnds`.
- Trimming comes before truncation, so a cut component can end in a dot or a space
  again; `SanitizeEndIff` says exactly which components do (`CutLeavesDot`,
  `ReplanIff`).
- A rename can be reported with no reason, although the module says each carries
  one: "./a" becomes "a" (`ReasonlessExample`). `ReasonlessIff` is the exact
  condition: nothing but `.` components was dropped, and nobody has the name.
- The piece numbers of a range are cast to 32 bits before they are compared with
  the piece count, so a range far past the payload can miss pieces (`CastCuts`,
  `OverlapExact`). Ranges of files never are.
- `read_range` of an empty range past the end answers with no bytes rather than
  with nothing.
- The decoder of the loopback tracker slices text by bytes, and panics when an
  escape cuts a character (`PanicsIff`, `EscapeCutsCharacter`). An announce never
  causes that (`AnnouncePanicsIff`).
- Comparing two files of one length in torrents of piece length zero divides by
  zero (`PanicsIff`).
- The two masks of the allowed-fast set agree from 192.0.0.0 up, as documented, and
  also on every address with a zero third octet (`AmbiguousIff`).
- The set is said to be prefix stable. It is for sizes below the piece count, and
  for sizes from the piece count on; across the two only when the stream happens to
  start with 0, 1, 2 and so on (`PrefixIff`, `ShortcutBreaksPrefix`).
- The page scanner keeps links out of scripts and styles it stops at. One inside an
  anchor keeps its links to itself unless the anchor is left before the element
  closes (`InnerLinkIff`), which happens for two reasons (`ContentLeft`): something
  like the close tag of the anchor stands in the element (`LinkInNested`), or the
  text in front of it exceeds the limit (`LinkPastLimit`).

## Reading order

`Device` has files as byte strings and the algebra of writes landing in some
order; `Coalescer` and `CoalescerOrder` the buffer; `OpenSet` the open order;
`StorageSpec`, `StorageInvariant`, `StorageRefinement`, `StorageCalls`,
`StorageReads` and `StorageReach` the storage on values, call by call; `Storage` the
object; `StorageSequences`, `StorageDownload`, `StorageTally`, `StorageStream` and
`StorageAnswers` whole sessions, their costs and answers; `StorageInterleaving` many
threads. `Letters`, `PathText`, `Sanitizing`, `PathSafety`, `SanitizeNames`,
`PathPlan`, `PathTheorems` and `PathRenames` are the planner; `Span`, `Layout`,
`Pieces`, `Equivalence`, `Distinct` and `FastSet` the arithmetic; `Text`,
`BigEndian`, `Tracker`, `TrackerUdp`, `Resume`, `Metalink`, `MetalinkTree`,
`MetalinkValues`, `PageText`, `Page`, `PageLinks` and `PageReads` the codecs and
scanners.

To verify the project: `dafny verify dfyconfig.toml`

## Model

| member | source | states |
|---|---|---|
| Coalescing.Coalescer.Append | crates/bit-cli-core/src/storage.rs:603-650 | the held runs and the answer are exactly those of the specification scan; a write of 1 MiB or more passes through; a smaller one that continues a held run is joined to it with no run added, and the joined run goes out when it reaches 1 MiB |
| Coalescing.Coalescer.Join | crates/bit-cli-core/src/storage.rs:607-640 | the scan in place equals the recursive one: it extends the run the write continues, sends out runs it overlaps, and sends out a run that fills |
| Coalescing.Coalescer.TakeOverlapping | crates/bit-cli-core/src/storage.rs:652-663 | takes exactly the runs of the file that share a byte with the range and leaves the rest in order |
| Coalescing.Coalescer.TakeFile | crates/bit-cli-core/src/storage.rs:666-677 | takes exactly the runs of one file |
| Coalescing.Coalescer.TakeAll | crates/bit-cli-core/src/storage.rs:680-682 | takes every run and leaves none held |
| Coalescing.Coalescer.Buffered | crates/bit-cli-core/src/storage.rs:685-687 | the sum of the lengths of the held runs |
| Coalescing.OneRunExtends | crates/bit-cli-core/src/storage.rs:612-627 | when held runs are disjoint, at most one of them can be extended by a write |
| Coalescing.ScanApart | crates/bit-cli-core/src/storage.rs:607-640 | the scan keeps the runs disjoint, and nothing it sends out shares a byte with a run it keeps for another file |
| Coalescing.HoldBounded | crates/bit-cli-core/src/storage.rs:515-524 | every write keeps the bounds: at most 8 runs, each non-empty and under 1 MiB, pairwise disjoint within a file |
| Coalescing.HoldJoins | crates/bit-cli-core/src/storage.rs:612-633 | a small write that continues a held run is joined to it: no run is added, and the joined run is held under 1 MiB and goes out from there |
| Coalescing.HoldStarts | crates/bit-cli-core/src/storage.rs:635-649 | a small write that continues no run starts one, the newest |
| Coalescing.HoldLeaves | crates/bit-cli-core/src/storage.rs:612-649 | every other run goes out exactly when it shares a byte with the write, or is the oldest of eight the write has nothing to do with |
| CoalescingOrder.ScanIff | crates/bit-cli-core/src/storage.rs:612-640 | landing what the scan sent out and then what it kept is the old bytes with the new write on top, if and only if the run the write filled disagrees with no overlapping run found behind it |
| CoalescingOrder.HoldIff | crates/bit-cli-core/src/storage.rs:603-650 | holding a small write puts it on top of everything exactly when no run behind a filled one contradicts it; outside its own range it never changes a byte |
| CoalescingOrder.HoldApart | crates/bit-cli-core/src/storage.rs:603-650 | what a write displaces never overlaps a run still held for another file, so the order of evictions cannot matter |
| OpenFiles.OpenSet.Opened | crates/bit-cli-core/src/storage.rs:735-745 | the new open order and the files to close are those of the specification: the file last, the oldest closed while over the cap |
| OpenFiles.OpenSet.Close | crates/bit-cli-core/src/storage.rs:747-749 | the file leaves the order; every other file stays in it as often as it was, and of any two others the one that was ahead still is |
| OpenFiles.OpenedBounds | crates/bit-cli-core/src/storage.rs:735-745 | opening keeps the order free of duplicates and within the cap, closes at most one file, and never the one just opened |
| OpenFiles.OpenedCloses | crates/bit-cli-core/src/storage.rs:735-745 | nothing closes while there is room; otherwise the file opened longest ago does, which was ahead of every file that stays; the others keep their order |
| StorageInvariant.EvictEffect | crates/bit-cli-core/src/storage.rs:917-967 | evicting files closes exactly those, takes exactly their held runs out of the buffer, and leaves every other handle and run alone |
| StorageInvariant.EvictLands | crates/bit-cli-core/src/storage.rs:917-967 | what eviction writes is exactly the held runs of the files it closes, file by file |
| StorageInvariant.EnsureOpenKeeps | crates/bit-cli-core/src/storage.rs:917-967 | opening keeps the joint invariant: the order has no duplicates, stays within the cap and lists exactly the open slots, and every file that can hold data and has held runs keeps a writable slot |
| StorageInvariant.WriteAllKeeps | crates/bit-cli-core/src/storage.rs:1033-1046 | writing taken runs keeps the whole invariant, whichever of them are refused, and answers with the first refusal |
| StorageInvariant.RefusalIff | crates/bit-cli-core/src/storage.rs:1033-1046 | nothing is refused if and only if the file of every run can hold data; the runs that are written are then all of them |
| StorageInvariant.AcceptKeeps | crates/bit-cli-core/src/storage.rs:973-1000 | every write keeps the invariant, refused or not; the answer is its own refusal, or the first among the runs it displaced |
| StorageInvariant.AcceptCleanIff | crates/bit-cli-core/src/storage.rs:969-1000 | with nothing left behind before, a write leaves a run nobody can write if and only if its file cannot hold data and it is small enough to be buffered first; it succeeds exactly when its file can hold data |
| StorageInvariant.RefusedWriteLosesOldest | crates/bit-cli-core/src/storage.rs:973-1000 | with every run in use, a small write to a file that cannot hold data is refused after the oldest run was already pushed out, and nobody writes that run |
| StorageInvariant.WriteVectoredKeeps | crates/bit-cli-core/src/storage.rs:1225-1266 | a vectored write keeps the invariant, refused or not; to a file that can hold data, with nothing left behind before, it answers with the length of both slices |
| StorageInvariant.ReadKeeps | crates/bit-cli-core/src/storage.rs:1186-1211 | a read keeps the invariant and leaves no run behind |
| StorageInvariant.FlushAllKeeps | crates/bit-cli-core/src/storage.rs:1088-1094 | a flush keeps the invariant, leaves nothing held and answers with the first refusal |
| StorageInvariant.RemoveKeeps | crates/bit-cli-core/src/storage.rs:1268-1295 | a removal keeps the invariant |
| StorageInvariant.VacatedDropsNothing | crates/bit-cli-core/src/storage.rs:690-711 | after `take` the old instance holds nothing, so dropping it writes nothing |
| StorageRefinement.OpeningView | crates/bit-cli-core/src/storage.rs:917-967 | opening a file for writing, evictions included, changes nothing a reader could see but bringing the file into existence |
| StorageRefinement.WriteAllView | crates/bit-cli-core/src/storage.rs:1033-1051 | writing taken runs, with every eviction and refusal on the way, puts those that can be written under the held bytes and moves nothing else |
| StorageRefinement.PassThroughIff | crates/bit-cli-core/src/storage.rs:604-606 | a large write lands last exactly when no held run contradicts it |
| StorageRefinement.BufferedIff | crates/bit-cli-core/src/storage.rs:607-650 | a small write lands last exactly when it is faithful to the runs behind the one it fills |
| StorageRefinement.AcceptIff | crates/bit-cli-core/src/storage.rs:973-990 | the device overlaid with the held runs gains the write on top, as a plain file would, if and only if the write is faithful: no held byte contradicts a write that passes it by |
| StorageRefinement.AcceptConfined | crates/bit-cli-core/src/storage.rs:973-990 | in every case, faithful or not, bytes outside the range of the write are untouched |
| StorageCalls.LostFirst | crates/bit-cli-core/src/storage.rs:642-648 | what a refused write displaces holds, of the runs of files that can hold data, exactly the oldest one when all places are taken and the write touches no held run, and none otherwise; the others stay as they were |
| StorageCalls.RefusedView | crates/bit-cli-core/src/storage.rs:973-1000 | what a refused write changes is that one lost run: put back, it gives the old contents |
| StorageCalls.RefusedIff | crates/bit-cli-core/src/storage.rs:973-1000 | a refused write leaves the contents alone if and only if, before it, a place is free or the write touches a held run or the oldest run is of a file that cannot hold data, or else the device and the other held runs already have the bytes of the oldest |
| StorageCalls.LostRunExample | crates/bit-cli-core/src/storage.rs:973-1000 | a concrete sound state where one byte refused for a padding file takes an older byte of another file with it |
| StorageCalls.WriteIff | crates/bit-cli-core/src/storage.rs:973-1000 | every write, in every state a session can reach, does to the contents what it does to plain files if and only if no older byte lands over a newer one and no run is lost |
| StorageCalls.WriteVectoredIff | crates/bit-cli-core/src/storage.rs:1225-1266 | a vectored write, refused or not, equals one write of both slices joined if and only if each slice is faithful to the buffer it meets and, where the first displaces a run that is refused, the contents before the call already have the second |
| StorageCalls.BorrowedRefusal | crates/bit-cli-core/src/storage.rs:973-1000 | a write that displaces the run of an earlier refused write is answered with that refusal although its own bytes are taken |
| StorageCalls.CutShortWrite | crates/bit-cli-core/src/storage.rs:1225-1266 | a vectored write answered so has written its first slice and not its second |
| StorageCalls.BorrowedRefusalExample | crates/bit-cli-core/src/storage.rs:973-1000 | a concrete sound state where both happen |
| StorageReads.ReadExact | crates/bit-cli-core/src/storage.rs:1186-1211 | a read never changes the contents; it answers exactly when the file exists and its last position is inside the device file or a held run, and then with the bytes of the contents |
| StorageReads.HoleIsRefused | crates/bit-cli-core/src/storage.rs:1186-1211 | a concrete state where a read of a hole before a run held further on is refused though the contents have zeros there |
| StorageReads.WriteAllOpen | crates/bit-cli-core/src/storage.rs:1033-1046 | runs with their handles are written with nothing evicted, each run of a file that cannot hold data is refused and leaves no trace, and the first refusal is the answer |
| StorageReads.FlushAllView | crates/bit-cli-core/src/storage.rs:1088-1094 | after a flush, past any refusal, the device has in every file that can hold data what device and held runs had together, nothing is held, and the first refusal is the answer |
| StorageReads.RemoveView | crates/bit-cli-core/src/storage.rs:1268-1295 | removing a file takes it out of the contents, held bytes and all, and changes no other file |
| StorageReach.TakenReached | crates/bit-cli-core/src/storage.rs:973-990 | a write that is taken leaves every position of its range, and every one reached before, on the device or in a held run, whatever it displaces and evicts |
| StorageReach.RefusedReached | crates/bit-cli-core/src/storage.rs:973-1000 | a write that is refused leaves every position reached but those of the run it pushes out |
| Storage.SafeStorage.EnsureOpen | crates/bit-cli-core/src/storage.rs:917-967 | the object reaches exactly the specified state; the recursion through flushing and writing returns because the nested call finds its file open |
| Storage.SafeStorage.FlushRuns | crates/bit-cli-core/src/storage.rs:1033-1046 | every run is attempted in order, past refusals, from a sound state or through open handles; the state is the specified one and the first refusal is returned |
| Storage.SafeStorage.WriteThrough | crates/bit-cli-core/src/storage.rs:1002-1030 | one positioned write and its tally |
| Storage.SafeStorage.Accept | crates/bit-cli-core/src/storage.rs:973-990 | buffering, displaced runs and pass-through lead to exactly the specified state and outcome, and the object stays valid after a refusal |
| Storage.SafeStorage.PwriteAll | crates/bit-cli-core/src/storage.rs:1213-1223 | state and outcome of the specified write, valid after a refusal; the outcome is that of the write or of the first refused run it displaced |
| Storage.SafeStorage.PwriteAllVectored | crates/bit-cli-core/src/storage.rs:1225-1266 | state and outcome of the two specified slices, stopping at the first refusal, valid after it |
| Storage.SafeStorage.PreadExact | crates/bit-cli-core/src/storage.rs:1186-1211 | state and answer of the specified read, contents unchanged |
| Storage.SafeStorage.Fetch | crates/bit-cli-core/src/storage.rs:1195-1199 | the device half of a read: all of the range or a refusal |
| Storage.SafeStorage.FlushAll | crates/bit-cli-core/src/storage.rs:1088-1094 | from any state a session can reach, every run that can be written is on the device, the files have what device and buffer had together, and the first refusal is returned |
| Storage.SafeStorage.RemoveFile | crates/bit-cli-core/src/storage.rs:1268-1295 | held runs of the file discarded, slot closed, file gone |
| Storage.SafeStorage.Take | crates/bit-cli-core/src/storage.rs:1364-1393 | the new instance has all handles, order and runs; the old one has none left |
| Storage.SafeStorage.Drop | crates/bit-cli-core/src/storage.rs:690-711 | everything still held that can be written is, also after a refused write; nothing held means nothing done |
| StorageSequences.StepKeeps | crates/bit-cli-core/src/storage.rs:1186-1295 | every public call, refused or not, keeps the invariant and which files can hold data |
| StorageSequences.StepIff | crates/bit-cli-core/src/storage.rs:1186-1295 | every public call, refused or not, does to the contents what it does to plain files if and only if it is faithful |
| StorageSequences.PlayRefines | crates/bit-cli-core/src/storage.rs:603-663 | over every sequence of writes, vectored writes, reads, flushes and removals, refused ones among them, device and held runs together equal a plain last-write-wins byte map per file, as long as each call is faithful |
| StorageSequences.ReadAfterPlay | crates/bit-cli-core/src/storage.rs:1186-1211 | a read after any such sequence answers with the plain files when it answers, and it does answer when the last position it asks for was written and has neither been removed nor lost to a refused write since |
| StorageSequences.StepReached | crates/bit-cli-core/src/storage.rs:1186-1295 | a position is reached by the call that writes it and stays reached through every call but a removal of its file and a refused write that pushes out its run |
| StorageDownload.PayloadPlay | crates/bit-cli-core/src/storage.rs:603-663 | a download, which writes only slices of one payload, in any order, sizes and repetitions, is always faithful: no hypothesis is left for it |
| StorageDownload.DownloadReads | crates/bit-cli-core/src/storage.rs:1186-1211 | a download reads back what it wrote: a range whose every position was written, and whose file was not removed since, is answered with the payload, whatever was evicted, displaced, flushed or read in between |
| StorageSequences.PassThroughCounterexample | crates/bit-cli-core/src/storage.rs:604-606 | two concrete writes where the older held byte reaches the device after the newer one |
| StorageSequences.FilledRunCounterexample | crates/bit-cli-core/src/storage.rs:621-627 | concrete writes where a filled run is pushed out before an overlapping run found later |
| StorageSequences.Session | crates/bit-cli-core/src/storage.rs:1088-1094 | a session of any calls on the object, refused ones among them, dropped at its end, leaves the plain files on the device when every call was faithful |
| StorageTally.StepCounts | crates/bit-cli-core/src/storage.rs:1186-1295 | call by call, in any state a session can reach, bytes counted as written plus bytes held grow by what was offered, less what the call drops, be it with a removed file or by a refusal; operations plus held runs plus runs dropped grow by no more than the slices offered |
| StorageTally.SessionCounts | crates/bit-cli-core/src/storage.rs:1088-1094 | any session, refused calls and removals among it, run to its flush, has counted every byte it was given exactly once but for those dropped, evictions and read-backs included, in no more operations than slices |
| StorageTally.CleanSession | crates/bit-cli-core/src/storage.rs:1088-1094 | a session with nothing refused and nothing removed drops nothing: every byte it was given is counted exactly once |
| StorageStream.StreamCosts | crates/bit-cli-core/src/storage.rs:526-540 | a stream of small adjacent writes of any length and the flush behind it: every operation but the last writes 1 MiB or more |
| StorageStream.StreamIsOneWrite | crates/bit-cli-core/src/storage.rs:526-540 | adjacent writes of no more than 1 MiB together, into an empty buffer and then flushed, cost exactly one operation: 64 blocks of 16 KiB cost one, not 64 |
| StorageAnswers.WriteAnswers | crates/bit-cli-core/src/storage.rs:1213-1223 | a write of nothing is done, whatever the file; a file out of range is refused as such, a padding file as holding no data; any other write is done while no refused run is held |
| StorageAnswers.ReadAnswers | crates/bit-cli-core/src/storage.rs:1186-1211 | a read is answered, or refused for the first of: no such file, a padding file, a file not created, a range past what was written |
| StorageAnswers.RemoveAnswers | crates/bit-cli-core/src/storage.rs:1268-1295 | a removal is done for every file there is, padding included |
| StorageAnswers.FirstRefusalIs | crates/bit-cli-core/src/storage.rs:1033-1046 | the refusal heard of is that of the first run that cannot be written |
| StorageAnswers.StepAsks | crates/bit-cli-core/src/storage.rs:1186-1266 | each write call with a byte in it counts once, however many slices; each answered read counts with its length; nothing else does |
| StorageInterleaving.NextConserves | crates/bit-cli-core/src/storage.rs:603-682 | one append, take, landing, failure-free flush or removal step moves every byte between the places and loses none |
| StorageInterleaving.RunsConserve | crates/bit-cli-core/src/storage.rs:1033-1046 | in every interleaving: bytes accepted = written + held + in flight + discarded by removals, and operations + held runs + runs in flight never exceed the non-empty slices accepted |
| StorageInterleaving.HeldIsSmall | crates/bit-cli-core/src/storage.rs:515-524 | in every interleaving the bytes held never exceed 8 runs of just under 1 MiB |
| StorageInterleaving.RunsKeep | crates/bit-cli-core/src/storage.rs:603-682 | in every interleaving of a download, removals of other files among it, each accepted position of a file is on the device, held, or in flight |
| StorageInterleaving.QuietRangeReads | crates/bit-cli-core/src/storage.rs:1186-1211 | in every interleaving, a read of a range that was accepted is answered with the payload when no run in flight touches it |
| StorageInterleaving.LandedIff | crates/bit-cli-core/src/storage.rs:603-682 | in every interleaving, a position accepted once has landed if and only if it is neither held nor in flight, and is never in two places |
| StorageInterleaving.ObserveIff | crates/bit-cli-core/src/storage.rs:1186-1211 | in every interleaving of a download, the device has the payload in a range it did not have before if and only if every position of the range is covered by a run that has landed |
| StorageInterleaving.ReadIff | crates/bit-cli-core/src/storage.rs:1186-1211 | the exact condition of a read that misses nothing: in every interleaving, it answers with the payload if and only if every position of its range has landed or is held |
| StorageInterleaving.OnceIff | crates/bit-cli-core/src/storage.rs:603-682 | where every position of the range was accepted once, all have landed or are held if and only if no run in flight touches the range, and all have landed if and only if no run held or in flight does |
| StorageInterleaving.InFlightByteIsMissed | crates/bit-cli-core/src/storage.rs:1186-1211 | a concrete interleaving where a read flushes what touches its range and answers with the old byte, because another thread has taken the run out and not yet written it |
| PathText.CutLongest | crates/bit-cli-core/src/paths.rs:425-434 | the cut is the longest prefix of whole characters within the byte limit |
| PathText.DecimalValue | crates/bit-cli-core/src/paths.rs:448-463 | a number reads back from its digits, so attempts have distinct suffixes |
| Sanitizing.ReplaceIllegal | crates/bit-cli-core/src/paths.rs:310-324 | each illegal or control character becomes the replacement and the rest stay |
| Sanitizing.SanitizeComponent | crates/bit-cli-core/src/paths.rs:299-362 | the stages in place give the specified component and exactly the reasons that applied |
| PathSafety.SanitizeSafe | crates/bit-cli-core/src/paths.rs:299-362 | every sanitised component is non-empty, at most 255 bytes, free of separators, illegal and control characters, no device name and no escape, whatever the input |
| SanitizeNames.SanitizedName | crates/bit-cli-core/src/paths.rs:299-362 | whatever the component, what stands before the first dot of its sanitised name is none of the 24 device names in any case, and no character of it is an angle bracket, colon, double quote, bar, question mark, asterisk, backslash, slash or control character |
| SanitizeNames.DeviceMarked | crates/bit-cli-core/src/paths.rs:346-349 | a clean name whose part before the first dot is a device name in any case gets an underscore behind that part, for that reason |
| SanitizeNames.OthersKept | crates/bit-cli-core/src/paths.rs:299-362 | any other clean name of at most 255 bytes is kept, for no reason; a longer one is too long |
| SanitizeNames.EarlyReasonsIff | crates/bit-cli-core/src/paths.rs:308-345 | which of escape, illegal character and trailing dot or space is given, in terms of the characters of the component |
| SanitizeNames.DotsKeepLength | crates/bit-cli-core/src/paths.rs:326-335 | a component of dots and spaces becomes as many underscores |
| PathSafety.SanitizeFixed | crates/bit-cli-core/src/paths.rs:299-362 | a safe component that does not end in a dot or a space is left alone for no reason |
| PathSafety.SanitizeTrims | crates/bit-cli-core/src/paths.rs:340-344 | a component ending in a dot or a space is never left alone, however long |
| PathSafety.SanitizeEndIff | crates/bit-cli-core/src/paths.rs:340-354 | trimming precedes cutting: a sanitised component ends in neither dot nor space if and only if nothing was cut, an extension was kept, or the cut does not fall behind one |
| PathSafety.TruncateSafe | crates/bit-cli-core/src/paths.rs:438-442 | truncating a long safe name leaves a safe one |
| PathSafety.MarkStemSafe | crates/bit-cli-core/src/paths.rs:396-410 | a marked device name is no device name |
| PathPlan.AttemptsDiffer | crates/bit-cli-core/src/paths.rs:448-463 | for a path with a surviving component, attempts that fold to the same name are the same attempt, even when the stem is cut to make room |
| PathPlan.AttemptsBounded | crates/bit-cli-core/src/paths.rs:244-257 | the pigeonhole: no more attempts fail than names are claimed |
| PathPlan.FreeName | crates/bit-cli-core/src/paths.rs:244-257 | the loop ends at the first attempt whose folded name is unclaimed, and names who held the one before |
| PathPlan.SanitizeAll | crates/bit-cli-core/src/paths.rs:219-227 | components that carry a name, sanitised, in order, with their reasons |
| PathPlan.SettlesIff | crates/bit-cli-core/src/paths.rs:244-257 | some attempt is free if and only if a component survived or `file-{index}` is unclaimed |
| PathPlan.PlanWith | crates/bit-cli-core/src/paths.rs:198-284 | the loop builds exactly the specified plan, and stops only where the specification says that no attempt is free |
| PathTheorems.PlanClaims | crates/bit-cli-core/src/paths.rs:198-284 | the claims map is exactly the folded names placed so far, each with its file |
| PathTheorems.AllDistinct | crates/bit-cli-core/src/paths.rs:198-284 | planned paths are pairwise distinct under folding, one per input, in order |
| PathTheorems.PlanEndsIff | crates/bit-cli-core/src/paths.rs:198-284 | planning ends if and only if at no file every attempt is claimed, which is if and only if no file without a surviving component finds `file-{index}` claimed by an earlier one |
| PathTheorems.PlanEnds | crates/bit-cli-core/src/paths.rs:198-284 | where every path keeps a component, planning always ends |
| PathTheorems.PlanStep | crates/bit-cli-core/src/paths.rs:242-277 | a file is placed at the first attempt whose folded name is free, after at most one failed attempt more than names claimed before it; it claims that name, and a rename with both paths is added exactly when the name differs |
| PathTheorems.NeverEndsExample | crates/bit-cli-core/src/paths.rs:449-451 | planning "file-1" and then an empty path: every attempt for the second file is claimed |
| PathTheorems.RenamedSafe | crates/bit-cli-core/src/paths.rs:448-463 | the suffix a collision adds keeps a component safe and gives it a sound end |
| PathRenames.AttemptKeepsExtension | crates/bit-cli-core/src/paths.rs:448-463 | the n-th attempt for a name with an extension puts -n between stem and extension, "disc.iso" to "disc-1.iso", and cuts the stem where there is no room |
| PathRenames.AttemptAppends | crates/bit-cli-core/src/paths.rs:448-463 | the n-th attempt for a name without a dot appends -n |
| PathRenames.LongNameKeepsExtension | crates/bit-cli-core/src/paths.rs:436-442 | a clean name that is too long keeps its extension, and of its stem what there is room for |
| PathRenames.ComponentsAre | crates/bit-cli-core/src/paths.rs:216-227 | the components are those of the path in order, each sanitised, without the empty ones and the dots |
| PathRenames.FirstChoiceIs | crates/bit-cli-core/src/paths.rs:228-243 | a file is tried first under its components joined, or as `file-{index}` when none is left |
| PathTheorems.AllPathsSafe | crates/bit-cli-core/src/paths.rs:198-284 | for every list of paths and every override, every component of every planned path is safe |
| PathRenames.AllPathsNamed | crates/bit-cli-core/src/paths.rs:198-284 | for every list of paths and every override, no component of a planned path names a device in any case, or has a character no file name may have |
| PathTheorems.RenamesExact | crates/bit-cli-core/src/paths.rs:262-277 | a rename is reported for exactly the files whose planned path differs, in order, with both paths |
| PathRenames.AskReasonsIff | crates/bit-cli-core/src/paths.rs:207-227 | the reasons a file brings with it: requested for an override, a dropped component for an empty one, empty when none is left, and those of its components |
| PathRenames.ClashIff | crates/bit-cli-core/src/paths.rs:244-277 | a rename gives a collision as a reason exactly when the first choice was taken: a duplicate when the file in the way asked for the same path, a case collision when for another |
| PathTheorems.ReasonlessPlacement | crates/bit-cli-core/src/paths.rs:214-227 | a rename reported without a reason has no override, and the planned path is the original without its `.` components |
| PathTheorems.ReasonlessIff | crates/bit-cli-core/src/paths.rs:214-277 | a rename is reported without a reason if and only if there is no override, no component is empty or changed, a `.` component is dropped and one survives, and nobody has claimed what is left |
| PathTheorems.ReasonlessExample | crates/bit-cli-core/src/paths.rs:214-277 | planning the one path "./a" reports a rename to "a" with no reason |
| PathTheorems.ReplanIff | crates/bit-cli-core/src/paths.rs:198-284 | planning what was planned changes nothing and reports nothing, if and only if no planned component ends in a dot or a space |
| PathTheorems.UncutReplans | crates/bit-cli-core/src/paths.rs:198-284 | when no component was too long, re-planning is a fixed point, collision suffixes included |
| PathTheorems.CutLeavesDot | crates/bit-cli-core/src/paths.rs:340-354 | trimming precedes truncation: a cut that falls behind a dot leaves a component that sanitises to something else |
| PathTheorems.CutLeavesDotExample | crates/bit-cli-core/src/paths.rs:340-354 | one such component of 275 characters |
| PathTheorems.FoldAsciiLawful | crates/bit-cli-core/src/paths.rs:470-472 | folding letter by letter obeys the law asked of a fold |
| Spans.FromRanges | crates/bit-cli-core/src/span.rs:53-67 | sorted, non-empty, strictly separated spans with exactly the members of the ranges given |
| Spans.Coalesce | crates/bit-cli-core/src/span.rs:56-66 | one pass over sorted spans joins what touches and changes no member |
| Spans.ContainsRangeIff | crates/bit-cli-core/src/span.rs:100-124 | one binary search decides whether every byte of the range is a member |
| Spans.Union | crates/bit-cli-core/src/span.rs:127-130 | canonical, with exactly the members of either set |
| Spans.Intersection | crates/bit-cli-core/src/span.rs:132-150 | the merge walk is canonical, with exactly the shared members |
| Spans.Difference | crates/bit-cli-core/src/span.rs:152-175 | canonical, with exactly the members of the one and not the other |
| Spans.GapsIn | crates/bit-cli-core/src/span.rs:188-190 | exactly the uncovered bytes of the range, and none if and only if the range is contained |
| Spans.CanonicalUnique | crates/bit-cli-core/src/span.rs:53-67 | two canonical sets with the same members are equal |
| Layouts.FromLengths | crates/bit-cli-core/src/layout.rs:78-100 | files laid end to end: each starts where the one before it ends |
| Layouts.FileAtIff | crates/bit-cli-core/src/layout.rs:158-164 | the binary search lands on the one file holding the byte, and finds one exactly within the payload |
| Layouts.SplitByFile | crates/bit-cli-core/src/layout.rs:170-192 | the walk returns exactly the specified slices |
| Layouts.SplitTiles | crates/bit-cli-core/src/layout.rs:170-192 | the slices are non-empty, inside their files, in file order and contiguous, covering exactly the range clipped to the payload |
| Layouts.ReadRange | crates/bit-cli-core/src/storage.rs:1511-1531 | every slice read in turn; nothing unless all are there and the length is the one asked for |
| Layouts.ReadIsPayload | crates/bit-cli-core/src/storage.rs:1511-1531 | over intact files a range reads as that slice of the concatenated payload, and as nothing when it is not empty and runs past the end |
| Pieces.PieceExists | crates/bit-cli-core/src/layout.rs:119-125 | every byte lies in an existing piece, and in the range of that piece |
| Pieces.OverlapIff | crates/bit-cli-core/src/layout.rs:279-286 | the pieces of a range inside the payload are exactly those holding one of its bytes |
| Pieces.OverlapExact | crates/bit-cli-core/src/layout.rs:279-286 | for any range at all, the pieces are those that exist and hold a byte of it, if and only if the cast to 32 bits keeps the ends |
| Pieces.CastCuts | crates/bit-cli-core/src/layout.rs:283-285 | a concrete layout of one file and a range far past it whose last piece number wraps, so that a piece it covers is not listed |
| Pieces.PiecesForSelection | crates/bit-cli-core/src/layout.rs:202-212 | exactly the pieces some selected file touches, in order and each once |
| Pieces.NeededIff | crates/bit-cli-core/src/layout.rs:194-212 | a piece is needed when a selected file holds even one byte of it |
| Pieces.MiddleNotNeeded | crates/bit-cli-core/src/layout.rs:223-230 | a piece strictly between the first and last of a file is needed by no other file |
| Pieces.SelectionSpill | crates/bit-cli-core/src/layout.rs:233-276 | the loop lists exactly the specified spills |
| Pieces.SpillExact | crates/bit-cli-core/src/layout.rs:233-276 | looking only at the first and last piece, the spill counts exactly the bytes of the file in needed pieces, and ends one past the last of them |
| Pieces.ListedIff | crates/bit-cli-core/src/layout.rs:233-276 | a file is listed if and only if it is not selected and shares a piece with a selected file |
| Pieces.SpillsInOrder | crates/bit-cli-core/src/layout.rs:233-276 | each file is listed at most once, in the order of the torrent |
| Equivalence.WholePiecesIff | crates/bit-cli-core/src/equivalence.rs:90-103 | the whole pieces are exactly the pieces lying inside the file |
| Equivalence.WholePiecesCover | crates/bit-cli-core/src/equivalence.rs:90-103 | they start less than a piece into the file and miss less than two pieces of it |
| Equivalence.SameCover | crates/bit-cli-core/src/equivalence.rs:139-158 | files of one length with offsets congruent modulo the piece length hold equally many whole pieces, from the same place in the file, so taking the smaller count decides nothing |
| Equivalence.Compare | crates/bit-cli-core/src/equivalence.rs:109-180 | the hash loop with its early returns gives the specified verdict |
| Equivalence.ProofIsSound | crates/bit-cli-core/src/equivalence.rs:160-180 | with truthful hash lists and no collision between the payloads, `PieceHashes` proves the two files equal over the covered range, from the same place in both |
| Equivalence.ProofIff | crates/bit-cli-core/src/equivalence.rs:109-180 | with complete lists the proof is given if and only if lengths and piece lengths agree, offsets line up, a whole piece exists and the covered bytes agree |
| Equivalence.RuledOutDiffers | crates/bit-cli-core/src/equivalence.rs:109-120 | two files of one length that are ruled out differ in some byte, collisions or not |
| Equivalence.PanicsIff | crates/bit-cli-core/src/equivalence.rs:136-144 | the comparison panics exactly on two files of one length in torrents of piece length zero |
| Equivalence.VerdictIs | crates/bit-cli-core/src/equivalence.rs:109-180 | every verdict from the metadata: two files are ruled out exactly when one is missing, the lengths differ, or a pair of lined-up pieces has two hashes with all earlier pairs there and equal; a match carries the length, is a proof exactly when there are pairs and all have one hash, and counts no piece otherwise |
| Equivalence.ListedIff | crates/bit-cli-core/src/equivalence.rs:187-215 | a match is listed exactly when what it says of two files is so and they hold data |
| Equivalence.Matches | crates/bit-cli-core/src/equivalence.rs:187-215 | every match of a non-empty file, told from the metadata, each pair once, in order, stopped by the first comparison that panics |
| FastSet.Apply | crates/bit-cli-core/src/fast_set.rs:65-78 | the octets masked in place |
| FastSet.MaskedIff | crates/bit-cli-core/src/fast_set.rs:65-78 | addresses mask alike if and only if they share three octets, or two below 192 under the other rule |
| FastSet.AmbiguousIff | crates/bit-cli-core/src/fast_set.rs:80-88 | the two rules agree from 192.0.0.0 up and also wherever the third octet is zero |
| FastSet.AllowedFast | crates/bit-cli-core/src/fast_set.rs:107-149 | the nested loops give the first distinct indices of the digest stream within 300 rounds |
| FastSet.AllowedIs | crates/bit-cli-core/src/fast_set.rs:107-149 | entries are distinct and below the piece count, no more than asked for, and fewer only when torrent or stream has no other |
| FastSet.StreamAt | crates/bit-cli-core/src/fast_set.rs:124-149 | each round picks five pieces by the five words of its digest, in order and most significant byte first, and the next takes the digest of the digest |
| FastSet.FirstAllowed | crates/bit-cli-core/src/fast_set.rs:107-149 | the first piece is the first word of the digest of three octets, a zero and the info hash, modulo the piece count |
| FastSet.StreamWhole | crates/bit-cli-core/src/fast_set.rs:124-149 | the search gives up after 1500 picks |
| FastSet.AllowedByNetwork | crates/bit-cli-core/src/fast_set.rs:107-123 | the set depends on the address only through the mask |
| FastSet.PrefixIff | crates/bit-cli-core/src/fast_set.rs:97-119 | for all n <= m, the set of n is a prefix of the set of m if and only if m is below the piece count, or n is not, or the stream gives 0 to n - 1 first |
| FastSet.ShortcutBreaksPrefix | crates/bit-cli-core/src/fast_set.rs:117-119 | with two pieces, a set of one is [1] and a set of two [0, 1]: the shortcut breaks prefix stability |
| Distinct.FirstsInOrder | crates/bit-cli-core/src/fast_set.rs:138-144 | kept elements stand in the order in which they first occur |
| Tracker.PercentEncode | crates/bit-cli-core/src/tracker.rs:1162-1173 | unreserved characters stay, every other byte becomes an upper-case escape |
| Tracker.EncodedPlain | crates/bit-cli-core/src/tracker.rs:1162-1173 | the encoding is unreserved characters and percent signs only (RFC 3986, sections 2.1 and 2.3) |
| Tracker.EncodedByteIs | crates/bit-cli-core/src/tracker.rs:1162-1173 | letters, digits, - . _ ~ stay as they are; any other byte becomes a percent sign and two upper-case digits of base 16 |
| Tracker.PercentDecode | crates/bit-cli-core/examples/loopback-tracker.rs:943-970 | the loop decodes as specified: an escape is three characters, a plus is a space, a bad escape a percent sign; it panics where the specification says an escape cuts a character |
| Tracker.DecodeIs | crates/bit-cli-core/examples/loopback-tracker.rs:943-970 | one front at a time: a plus is a space, two digits of base 16 behind a percent sign their byte, a bad escape a percent sign for three characters, anything else itself |
| Tracker.PanicsIff | crates/bit-cli-core/examples/loopback-tracker.rs:943-954 | decoding panics if and only if an escape it comes to starts or ends inside a character of UTF-8 |
| Tracker.EscapeCutsCharacter | crates/bit-cli-core/examples/loopback-tracker.rs:949 | a percent sign, a letter and a two-byte character are enough |
| Tracker.DecodeEncoded | crates/bit-cli-core/src/tracker.rs:1162-1173 | decoding undoes encoding for every byte string, whatever follows it |
| Tracker.AnnounceQuery | crates/bit-cli-core/src/tracker.rs:669-687 | the query is the fields of the announce in order, joined to the URL by the right separator |
| Tracker.ParseQuery | crates/bit-cli-core/examples/loopback-tracker.rs:934-941 | pairs split at `&` and the first `=`, empty ones skipped, the last of a key kept; it panics exactly when a value does |
| Tracker.FieldReads | crates/bit-cli-core/examples/loopback-tracker.rs:934-941 | each field reads back under its key, whatever the announce URL has in its own query |
| Tracker.AnnounceReadsBack | crates/bit-cli-core/src/tracker.rs:669-687 | the tracker reads back info hash, peer id, port, counters, left, numwant and event for every announce |
| Tracker.AnnounceSays | crates/bit-cli-core/src/tracker.rs:55-62 | the words of an announce as the tracker reads them: "started", "stopped" or "completed" for the event, 9223372036854775807 for an unknown left, "1" for both flags, and the key in eight lower-case digits of base 16; without an event the parameter is left to the announce URL |
| Tracker.AnnouncePanicsIff | crates/bit-cli-core/src/tracker.rs:669-687 | no announce makes the tracker panic: its query does exactly when the own query of the announce URL does |
| TrackerUdp.AnnounceRequest | crates/bit-cli-core/src/tracker.rs:1048-1066 | the thirteen fields in wire order |
| TrackerUdp.RequestReadsBack | crates/bit-cli-core/examples/loopback-tracker.rs:778-793 | the request is 98 bytes and decoding it recovers every field (BEP 15, IPv4 announce request) |
| TrackerUdp.RequestOnWire | crates/bit-cli-core/src/tracker.rs:1048-1066 | each field at its place on the wire, with the numbers of BEP 15 for the action and each event |
| TrackerUdp.ReplyOnWire | crates/bit-cli-core/examples/loopback-tracker.rs:837-851 | the five words of a reply at their places |
| TrackerUdp.RequestsTellApart | crates/bit-cli-core/src/tracker.rs:1048-1066 | two announces share a request exactly when they differ at most in an unknown left against the number that stands for it |
| TrackerUdp.BuildReply | crates/bit-cli-core/examples/loopback-tracker.rs:837-851 | five words and six bytes for each IPv4 peer, the others skipped |
| TrackerUdp.ReplyReadsBack | crates/bit-cli-core/src/tracker.rs:1078-1098 | parsing the reply recovers interval and counts, cut to 32 bits, and exactly the IPv4 peers in order |
| TrackerUdp.ReplyRebuilds | crates/bit-cli-core/src/tracker.rs:1078-1098 | any reply of 20 bytes or more can be rebuilt from its parse but for its first eight bytes and less than one trailing entry |
| Text.ParseDecimal | crates/bit-cli-core/src/resume.rs:97-98 | a number reads back from its digits exactly when it fits the width |
| Text.UnsignedIff | crates/bit-cli-core/src/resume.rs:97-98 | exactly what is a number: a plus or none, one digit or more, and no more than the width holds |
| Resume.Render | crates/bit-cli-core/src/resume.rs:76-87 | header, totals, one line a file |
| Resume.Parse | crates/bit-cli-core/src/resume.rs:92-114 | line by line, anything unexpected refused, empty lines skipped |
| Resume.RoundTripIff | crates/bit-cli-core/src/resume.rs:76-114 | parsing undoes rendering if and only if no path holds a line feed or ends in a carriage return |
| Resume.RenderedReads | crates/bit-cli-core/src/resume.rs:76-114 | otherwise, without line feeds, each path comes back less one trailing carriage return |
| Resume.ReadPaths | crates/bit-cli-core/src/resume.rs:92-114 | no parsed path holds a line feed |
| Resume.EntryIff | crates/bit-cli-core/src/resume.rs:101-110 | a line is read exactly when it is "file", two numbers and a path, each behind one space |
| Resume.ReadIff | crates/bit-cli-core/src/resume.rs:92-114 | a sidecar is read exactly when its first three lines are the header and the two totals, and every other line is empty or an entry |
| Resume.RenderInjective | crates/bit-cli-core/src/resume.rs:76-87 | rendering tells surviving fingerprints apart |
| Metalink.Parse | crates/bit-cli-core/src/metalink.rs:361-498 | the event loop over its five variables gives the specified document or refusal |
| MetalinkTree.OutermostIs | crates/bit-cli-core/src/metalink.rs:366-372 | the depth found is that of the outermost open `pieces`, and there is none exactly when none is open |
| MetalinkTree.DepthIsNesting | crates/bit-cli-core/src/metalink.rs:375-486 | over every nested event stream the depth counts the open elements and `pieces_at` is the depth of the outermost open `pieces` |
| MetalinkTree.TruncatedIff | crates/bit-cli-core/src/metalink.rs:381-389 | a stream is refused as truncated exactly when it ends with elements open, and the refusal counts them |
| MetalinkTree.CutShortIff | crates/bit-cli-core/src/metalink.rs:353-358 | a document cut anywhere inside an element is refused as truncated; one cut outside every element never is |
| MetalinkTree.StreamIsWalk | crates/bit-cli-core/src/metalink.rs:375-486 | for every document the loop does what a recursive walk of the tree does, which knows no depth and only whether some ancestor is `pieces` |
| MetalinkTree.ParseIsWalk | crates/bit-cli-core/src/metalink.rs:361-498 | a whole document parses to what the walk collects |
| MetalinkTree.WalkTells | crates/bit-cli-core/src/metalink.rs:541-586 | where value elements hold one text, the walk is the list of facts of the document, each going to the file opened last |
| MetalinkTree.FileCollects | crates/bit-cli-core/src/metalink.rs:541-586 | the file opened last collects exactly the checksums, torrents, mirrors and last size of the facts up to the next one, in document order |
| MetalinkTree.ParsedFiles | crates/bit-cli-core/src/metalink.rs:361-498 | a whole document whose value elements hold one text parses to its files in order, each with exactly the facts between its opening and the next |
| MetalinkValues.ElementSays | crates/bit-cli-core/src/metalink.rs:421-462 | an element and its text, as the loop takes them, make of the file opened last what RFC 5854 says they mean: a size, a checksum without dashes, a mirror with an http scheme in any case, a torrent, or nothing |
| MetalinkValues.ParseReads | crates/bit-cli-core/src/metalink.rs:361-498 | a whole document whose value elements hold one text parses to the files its elements mean, read off the tree without the loop |
| MetalinkValues.PriorityReads | crates/bit-cli-core/src/metalink.rs:606-618 | a priority is itself; a preference is what it leaves of a hundred, and no less than nothing |
| MetalinkValues.VersionReads | crates/bit-cli-core/src/metalink.rs:594-604 | version 3 is a version starting with 3 or a namespace with metalinker.org in it |
| MetalinkTree.NoPieceHash | crates/bit-cli-core/src/metalink.rs:421-434 | in any document, no hash inside `pieces`, at any depth (RFC 5854, section 4.1.3), becomes a checksum |
| Page.Cursor.ReadAttrs | crates/bit-cli-core/src/page.rs:916-988 | the loop reads exactly the specified attributes, never moves back and ends within the markup |
| Page.Cursor.Next | crates/bit-cli-core/src/page.rs:864-909 | the next tag as specified, the cursor past it |
| Page.Cursor.SkipToClose | crates/bit-cli-core/src/page.rs:991-1002 | past the first close tag of the name, or at the end |
| Page.Cursor.ContentUntilClose | crates/bit-cli-core/src/page.rs:1015-1064 | text and image label as specified, each round of the loop moving forward |
| Page.Anchors | crates/bit-cli-core/src/page.rs:602-645 | every href of an `a`, `area` or `link` the scan stops at, in order |
| PageText.NextTag | crates/bit-cli-core/src/page.rs:864-909 | a tag found starts at a `<` no earlier than asked and ends later than it starts, within the markup |
| PageText.CloseAt | crates/bit-cli-core/src/page.rs:991-1000 | the first occurrence of the close tag in any case, and no earlier one |
| PageReads.TagReads | crates/bit-cli-core/src/page.rs:864-988 | a tag reads back: its name in lower case, and each attribute with what stands between its quotes, of either kind |
| PageLinks.VisitsForward | crates/bit-cli-core/src/page.rs:602-645 | the scan stops at tags strictly in order, each past where it resumed after the one before |
| PageLinks.NoLinkInSkipped | crates/bit-cli-core/src/page.rs:610-614 | no link starts between a script, style, noscript or template tag the scan stops at and the first close tag of its name |
| PageLinks.LinkInNested | crates/bit-cli-core/src/page.rs:1015-1064 | a concrete page where a link inside a style element inside an anchor is returned, the style holding what looks like the close of the anchor |
| PageLinks.LinkPastLimit | crates/bit-cli-core/src/page.rs:1015-1064 | a family of pages where such a link is returned because the text in front of it fills the limit |
| PageLinks.InnerLinkIff | crates/bit-cli-core/src/page.rs:610-645 | for any tag read over inside an anchor, a link starts between it and the first close tag of its name if and only if the anchor is left before that close tag and a link follows before it |
| PageLinks.ContentLeft | crates/bit-cli-core/src/page.rs:1015-1064 | reading pauses between tags, comments and stretches of text; an anchor is left past the first pause that stands at something like its close tag, unless the markup ends or the text exceeds the limit before |
| PageLinks.ExtractLinks | crates/bit-cli-core/src/page.rs:506-534 | the addresses listed are the first occurrences of the resolved ones, each with a candidate that resolves to it |
| PageLinks.LinksInOrder | crates/bit-cli-core/src/page.rs:506-534 | listed addresses are distinct, all there are, and in order of first occurrence |
| PageReads.PageReads | crates/bit-cli-core/src/page.rs:602-645 | a page written of text, anchors with a label or an image, areas, links, scripts and styles, comments and declarations gives exactly the links of its anchors, areas and links, in order, each with address, label, image and attributes |

## Left out

- StorageReads.ReadExact: takes every device operation to succeed; I/O errors, locks, poisoning, timing, byte rates and trace records are not modelled.
- StorageInterleaving.ReadIff: the flush and the look of the one read follow each other; a look after any other steps is `ObserveIff`.
- Pieces.SpillExact: asks that piece indices fit 32 bits, which the casts of the source take for granted; other casts are modelled as wrapping.
- PathTheorems.AllPathsSafe: asks for fewer than 2^32 paths, since the attempt counter is a number here and 32 bits wide in the source.
- Metalink.Parse: takes events, with names and attributes by local name and text decoded and trimmed, as the XML reader gives them.
- Page.Anchors: the label of a link is its raw text, image label and attributes; decoding entities, collapsing white space and picking the first non-empty one are left out, as is `base_href`. Whether a label is blank is a parameter.
- PageLinks.ExtractLinks: resolving and classifying an address is a parameter.
- Tracker.AnnounceReadsBack: text is one character a byte, and a fragment in the announce URL is not treated apart; `key` is shown to be in the query but not parsed.
- TrackerUdp.ReplyReadsBack: a peer is its four octets and its port, not their text.
- Equivalence.Compare: the path of the matched file, which is only displayed, is not carried.
- Storage with `overwrite` off, where an evicted file cannot be opened again for writing, and `ensure_file_length` with the allocation modes.
- Byte ranges and offsets beyond 64 bits: lengths and offsets are unbounded numbers.
- Full Unicode case folding: a fold is any function that keeps digits and `-` of a suffix in place; one for ASCII is given.
- Reasons of a rename as a list: they are a set here, without the order of their first mention.
- The binary search and the sort of the standard library, which stand for their contracts.
- `planned_directory`, removal of empty directories, the file cache around the resume sidecar, the swarm of the loopback tracker, scrape requests, HTTP replies, `best_checksum` and other lookups: they would add easy members.
- Sessions, sockets, the command line, configuration, digests and formatting.
