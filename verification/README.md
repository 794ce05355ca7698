# Verified model of the blob cache

This project models the on-disk blob cache of blobber (`internal/cache`) and three smaller
cores beside it, and proves what they promise. For every digest the cache keeps an optional
final blob, an optional `.partial`, an optional `.tmp` and an optional entry; the registry
and every file step are oracles that may fail, answer short, answer too much or answer
wrong. All statements are for all inputs, all runs and all patterns of failure unless a
hypothesis below says otherwise.

| module | content |
|---|---|
| `Ranges`, `Sorting` | byte ranges: the code's list algorithms against sets of positions |
| `Disk` | files of one digest, registry answers, the gap loop shared by resume and lazy reads |
| `Download`, `Lazy`, `Stream` | the specification of each operation on one digest, and its theorems |
| `Truth` | for each operation, exactly when recorded bytes stay real |
| `Prune` | age and LRU selection, accounting |
| `CacheRuns`, `Recovery`, `Conservation` | the whole cache as a state machine, theorems over every run |
| `Stranded` | a run in which recorded bytes go wrong without a failing file step |
| `BlobCache` | the cache, the lazy handle and the caching reader as classes that change their state step by step, each method that a client calls proved to be one step of the state machine |
| `SafePath`, `Limits`, `Signatures` | path checks, extraction limits, the signature search |

How the parts fit: the methods of `BlobCache` do what the code does, one file step at a
time. The postcondition of each method that a client calls (`CacheRuns.Acts`,
`CacheRuns.ActsOnAll`) gives the whole new state, files of every digest and references, as
one step of the state machine, given the session that the digest is in.
`CacheRuns.CallsAreRuns` concludes that every sequence of calls is a run, so what is proved
of runs holds of every client of the classes (`CacheRuns.CallsPublishIntact`).

## Main results

- **No bad blob is ever published.** Over every run, with any registry and any failing file
  steps, a file at a final path hashes to its digest, whichever of the four publishing paths
  put it there (`CacheRuns.BlobsAlwaysIntact`).
- **No run spoils a later Open.** After every such run an Open whose own steps succeed
  returns exactly the blob (`Recovery.OpenDeliversAfterEveryRun`). From arbitrary files
  instead of reachable ones the one exception is a complete entry over a file of the right
  length and wrong content without verification on read (`Download.OpenRecovers`, an
  equivalence).
- **Reads work.** While the registry answers and the file steps work, every lazy read of a
  handle succeeds with the blob's bytes, after any run that strands nothing
  (`Lazy.ReadSucceeds`, `Recovery.LazyReadsSucceedAfterEveryRun`); and a blob that was opened
  once is served without the registry (`Recovery.OpenedOnceServesOffline`).
- **Recorded bytes are real**, over runs, unless an operation removes or renames the partial
  file and then does not replace the entry; for each operation this condition is exact
  (`CacheRuns.RecordedBytesStayReal`, `CacheRuns.StepTruth`, `Truth`); for registries that lie,
  `Truth.DownloadBacked` says exactly when progress outlives its file.
- **Lazy reading refines plain reading**, completes exactly when the reads cover the blob, and
  fetches no byte twice, also across a close and a reopening (`Lazy.LazyRefinesPlain`,
  `Lazy.LazyCompletesWhenCovered`, `Lazy.FetchesAreCoverageGrowth`, `Lazy.ReopenContinues`).
- **Fetches are conserved** over whole runs: across sessions, closes, reopenings and resumes,
  with any registry, the bytes fetched are the growth of what is recorded
  (`Conservation.FetchesAreConservedOverRuns`).
- **Stream-through is transparent**, and what Close publishes is given exactly
  (`Stream.StreamIsTransparent`, `Stream.StreamPublishes`).
- **The range algorithms compute canonical forms** of set expressions (`Ranges`).
- **Prune is optimal and conserving**, and a reference hit is never stale beyond its ttl
  (`Prune.PruneIsOptimal`, `Prune.PruneConserves`, `CacheRuns.BoundedStaleness`).
- **The string tests for containment are component tests, and the two limit checkers agree**
  (`SafePath`, `Limits`); the signature search reports each outcome exactly when it should
  (`Signatures.VerifySignature`).

## Hypotheses

- A digest has at most one open lazy handle or stream-through reader, and while it has one no
  other operation touches the digest. The code has no lock per digest (`lazy_handle.go:195`
  saves under the handle's own mutex, `cache.go:182` names one `.tmp` per digest).
- The hash is uninterpreted. It is assumed free of collisions only in `Download.Names`, and
  there only for the digest in question.
- Each file step happens at most once per operation and either takes effect or does not. A
  range body that is shorter than asked also stands for a disk that took only part of it.
- One operation asks for each (offset, length) at most once, so a registry answer is a
  function of the two.
- Descriptor sizes are non-negative int64 values. Recorded ranges are positive and end
  within int64, which `CacheRuns.RunsStayUsable` shows of every run.
- Callers agree on the size of a digest's blob (`CacheRuns.AsksFor`, `Recovery.Consistent`)
  where a result depends on the entry's size.
- Path theorems are about clean absolute destinations on Unix, given by their components.

## Where the code does less than its comments say

- `ranges.go:48-50` promises the gaps between 0 and the total size. A range that starts
  beyond the total size yields a gap that reaches past it (`Ranges.GapPastTheEnd`);
  `Ranges.GapsStayInsideIff` gives the exact condition, and `Ranges.FindGapsInRange` shows
  that the clipping in `lazy_handle.go` repairs it for every window.
- `cache.go:166-168` removes partial file and entry together so that no zeros are taken for
  fetched bytes. `fullDownload` removes the partial file alone (`cache.go:556-557`): after a
  lazy read, a Close and an Open that finds no registry, every file step working, the next
  lazy read returns zeros as data (`Stranded.LazyReadGoesWrong`).
  `Truth.StrandedProgressReadsZeros` shows that this holds of every stranded byte, and the
  lemmas of `Truth` say exactly which operations strand progress.
- Stream-through publishes the same for every read schedule with one exception, a source that
  reports an error together with the blob's last byte (`Stream.SchedulesDisagree`);
  `Stream.SchedulesAgree` gives the exact condition. (Close stops at such an error, the
  caller's own read does not.)
- `client.go:404` says that a whole reference without a slash has no tag. A name like `repo:tag`
  keeps its tag in front of the digest: `Signatures.TagDroppedIffSlash`.
- OpenStream opens a fresh download without the size check that Open makes
  (`cache.go:130`); both deliver the same after a download (`Download.OpenRecovers`).

## Model

| member | source | states |
|---|---|---|
| Ranges.MergeRanges | internal/cache/ranges.go:7-40 | merging gives the one canonical list (sorted, non-empty, not touching) of exactly the bytes covered |
| Ranges.CanonicalUnique | internal/cache/ranges.go:5-6 | lists with the same bytes merge to the identical list, whatever their order or overlaps |
| Ranges.AddRange | internal/cache/ranges.go:44-46 | adding a range covers exactly its bytes besides the old ones, so the order of additions does not matter |
| Ranges.FindGaps | internal/cache/ranges.go:51-87 | the gaps are the canonical list of the uncovered bytes up to the total size or the last recorded byte, whichever is later |
| Ranges.GapsStayInsideIff | internal/cache/ranges.go:48-51 | what findGaps returns is the complement within the total size exactly when that size is not positive or no merged range starts beyond it |
| Ranges.GapPastTheEnd | internal/cache/ranges.go:48-87 | a range at 10 in a search up to 5 yields the gap [0, 10) |
| Ranges.TotalCoverage | internal/cache/ranges.go:90-101 | counts the distinct covered bytes and cannot overflow |
| Ranges.IsComplete | internal/cache/ranges.go:104-106 | true exactly when the covered set is [0, totalSize) |
| Ranges.ContainsRange | internal/cache/ranges.go:110-124 | true exactly when every byte of the window is covered, although single merged ranges are tested; and what the test says when the end wraps around |
| Ranges.FindGapsInRange | internal/cache/lazy_handle.go:234-273 | the gaps are the canonical list of the uncovered bytes of the window, wherever the ranges lie |
| Disk.FetchFrame | internal/cache/cache.go:737-756 | short, broken or overlong range bodies never change a byte outside the gaps being fetched |
| Disk.FetchAgrees | internal/cache/cache.go:657-689 | with honest bodies no right byte becomes wrong and every recorded byte is right |
| Disk.FetchCoverage | internal/cache/cache.go:657-689 | nothing outside the gaps is recorded, and all gaps are exactly when every fetch succeeds |
| Disk.FetchConserves | internal/cache/cache.go:687-688 | the fetched lengths sum to the growth of the coverage |
| Disk.FetchSucceedsIff | internal/cache/cache.go:657-689 | the gap loop succeeds exactly when every gap is answered whole and without an error |
| Disk.FetchStopsAtFirstFailure | internal/cache/cache.go:660-685 | otherwise it stops at the first gap that is not, for that gap's reason, with exactly the gaps before it recorded |
| Disk.FetchedContent | internal/cache/cache.go:737-756 | after success the file holds the answers, byte by byte, whatever they are |
| Download.DownloadKeepsIntact | internal/cache/cache.go:527-551 | Open, OpenStream and Prefetch never put a file at the final path that does not hash to the digest |
| Download.HitsNeedNoRegistry | internal/cache/cache.go:75-123 | what stands cached is served and touched without the registry, and nothing else changes |
| Download.OnlyWhatStandsIsHit | internal/cache/cache.go:411-498 | a hit is exactly a complete, verified entry over a readable file of its length, and of its digest if hits are verified |
| Download.FullDownloadOutcome | internal/cache/cache.go:554-633 | when a full download succeeds, and what it leaves when it does and when it does not |
| Download.WrongWholeIsDropped | internal/cache/cache.go:701-712 | a filled partial file with a wrong digest goes, with its entry, and publishes nothing |
| Download.StoppedResumeSavesProgress | internal/cache/cache.go:660-685 | a resume that stops early saves the ranges and bytes it got, unless ranges are unsupported |
| Download.DownloadChoice | internal/cache/cache.go:527-551 | a complete entry is left alone, only unfinished progress is resumed, and a full download follows any resume that does not come through |
| Download.OpenAfterMiss | internal/cache/cache.go:87-136 | after a miss, exactly when Open and OpenStream succeed, and with what |
| Download.PrefetchPublishes | internal/cache/cache.go:881-904 | a background download publishes the blob from any files without a complete entry, and leaves a complete one alone |
| Download.DownloadDelivers | internal/cache/cache.go:554-731 | a download with an honest full fetch delivers the blob from any partial state and any range answers |
| Download.OpenRecovers | internal/cache/cache.go:75-137 | Open and OpenStream deliver the blob from any files and well-formed entry exactly when there is no undetected corruption |
| Download.ResumeConserves | internal/cache/cache.go:648-689 | a resume that gets all gaps fetches exactly the size minus the prior coverage |
| Download.ResumeKeepsRecordedBytes | internal/cache/cache.go:657-689 | whatever the registry answers, recorded bytes keep their value during a resume |
| Lazy.ReadCovers | internal/cache/lazy_handle.go:63-142 | a read never forgets a byte, fetches exactly the bytes it adds, and covers its window if it succeeds, for any registry and file failures |
| Lazy.ReadKeepsRecordedBytes | internal/cache/lazy_handle.go:92-142 | no range answer alters a recorded byte of the handle's file |
| Lazy.ReadRefines | internal/cache/lazy_handle.go:63-88 | with honest ranges a successful read gives what reading the whole blob gives, EOF included |
| Lazy.LazyRefinesPlain | internal/cache/lazy_handle.go:63-142 | the same for every sequence of reads, some of which may fail |
| Lazy.ReadSucceeds | internal/cache/lazy_handle.go:63-191 | while the registry answers and the file steps work a read succeeds and gives the blob's bytes and EOF, also the one that completes the blob and all after it |
| Lazy.AllReadsSucceed | internal/cache/lazy_handle.go:63-191 | the same for every read of every sequence |
| Lazy.ClosedReadsFail | internal/cache/lazy_handle.go:71-73 | after Close every read of a byte or more fails and changes nothing |
| Lazy.ReadSavesProgress | internal/cache/lazy_handle.go:105-141 | a read that fetched saves what the handle knows, and fails exactly when a gap is not answered or the file cannot be read |
| Lazy.CompletionOutcome | internal/cache/lazy_handle.go:146-191 | what each failing step of verification and publication leaves of the file, the entry and the handle |
| Lazy.FetchesAreCoverageGrowth | internal/cache/lazy_handle.go:99-129 | over any sequence of reads the fetched bytes are the growth of the coverage and at most the size |
| Lazy.LazyCompletes | internal/cache/lazy_handle.go:131-191 | a handle is complete, verified, published and cleared of ranges exactly when nothing is missing, also when fetches fail |
| Lazy.AnsweredReadsCoverWindows | internal/cache/lazy_handle.go:105-129 | with an answering registry the coverage is the initial one and the windows read, in any order |
| Lazy.LazyCompletesWhenCovered | internal/cache/lazy_handle.go:131-191 | a handle completes exactly when the initial ranges and the windows read cover the blob |
| Lazy.ReopenContinues | internal/cache/cache.go:805-875 | a handle opened again after Close has the ranges and bytes of the closed one; after completion the published blob is hit |
| Lazy.LazyOpenSucceedsIff | internal/cache/cache.go:784-787 | with working file steps opening fails exactly under verification on read, and then changes nothing |
| Lazy.SessionStartsIff | internal/cache/cache.go:836-866 | with failing file steps: a session starts exactly when the partial file opens, its size is known and can be set if it differs |
| Lazy.LazyHitNeedsNoRegistry | internal/cache/cache.go:788-795 | what stands cached is handed out without the registry |
| Lazy.ProgressTakenOver | internal/cache/cache.go:821-871 | recorded ranges and bytes are taken over, unless the partial file is longer than the blob; then the ranges are forgotten, in the stored entry too |
| Lazy.FreshSession | internal/cache/cache.go:821-871 | without an entry a session starts with nothing recorded and a file of the blob's size |
| Stream.StreamIsTransparent | internal/cache/cache.go:219-239 | the caller sees the source bytes unchanged, as many as it asks for or there are, however reads are split and whichever cache writes fail |
| Stream.StreamPublishes | internal/cache/cache.go:241-346 | for every failing or working file step: Close publishes the first size bytes of the source exactly when they exist, hash to the digest, are reached, synced and renamed; otherwise only the temp file changes |
| Stream.SchedulesAgree | internal/cache/cache.go:313-346 | two read schedules leave the same files exactly when the source does not fail on the last byte, both treat it alike, or what would be published already stands there |
| Stream.SchedulesDisagree | internal/cache/cache.go:313-346 | one byte delivered with an error: the schedule that reads it publishes, the one that leaves it to Close does not |
| Stream.FailedWritePublishesNothing | internal/cache/cache.go:228-268 | after a failed cache write nothing but the temp file changes |
| Stream.StreamStarts | internal/cache/cache.go:147-201 | when an open is a hit, a stream over the given source or a failure, and the files each starts from |
| Truth.DownloadTruth | internal/cache/cache.go:527-731 | a download keeps recorded bytes real exactly when it does not strand them |
| Truth.OpenTruth | internal/cache/cache.go:75-137 | the same for Open, OpenStream and Prefetch |
| Truth.DownloadBacked | internal/cache/cache.go:527-731 | for any registry, exactly when a download leaves recorded progress without its partial file |
| Truth.OpenBacked | internal/cache/cache.go:75-137 | the same for Open, OpenStream and Prefetch |
| Truth.WrongWholeLeavesNoProgress | internal/cache/cache.go:701-712 | after a registry filled the gaps wrongly no progress is left, and no blob but the old one or one delivered whole |
| Truth.EvictTruth | internal/cache/prune.go:221-231 | an eviction keeps recorded bytes real unless it removes the partial file and fails at the entry |
| Truth.StreamOpenTruth | internal/cache/cache.go:165-173 | starting a stream keeps recorded bytes real unless the partial file goes and the entry stays |
| Truth.LazyOpenTruth | internal/cache/cache.go:805-875 | opening lazily always keeps recorded bytes real, and the handle starts faithful |
| Truth.ReadTruth | internal/cache/lazy_handle.go:92-199 | a read keeps the stored entry true unless it publishes the blob and the entry is not saved |
| Truth.StrandedProgressReadsZeros | internal/cache/cache.go:855-866 | what stranded progress does: the next lazy handle reads zeros there |
| Stranded.LazyReadGoesWrong | internal/cache/cache.go:554-563 | from an empty cache with every file step working, a lazy read, a Close and an Open without a registry leave progress whose next lazy read returns a zero without an error |
| CacheRuns.BlobsAlwaysIntact | internal/cache/cache.go:241-731 | over every run every file at a final path hashes to its digest |
| CacheRuns.CallsAreRuns | internal/cache/cache.go:75-904 | every sequence of calls of the cache, its handles and its readers is a run of the state machine |
| CacheRuns.CallsPublishIntact | internal/cache/cache.go:241-731 | so no sequence of calls on an intact directory ever leaves a wrong file at a final path |
| CacheRuns.RunsStayUsable | internal/cache/cache.go:750-755 | over every run entries record possible ranges and handles and readers can be worked with |
| CacheRuns.StepTruth | internal/cache/cache.go:165-173 | one step of the cache keeps a digest's recorded bytes real exactly when it does not strand them |
| CacheRuns.RecordedBytesStayReal | internal/cache/cache.go:737-875 | over every run with honest ranges that strands nothing, recorded bytes are the blob's bytes in the partial file |
| CacheRuns.PrunedRefsResolve | internal/cache/prune.go:241-297 | after a complete prune every removable reference leads to an entry that is still stored, and every reference to a kept entry is still there |
| CacheRuns.PruneLeavesKept | internal/cache/prune.go:39-147 | after an undisturbed prune exactly the kept entries are stored, untouched, none aged, within the limit; of the others only temp files are left |
| CacheRuns.PruneDropsEvictedRefs | internal/cache/prune.go:126-147 | cancelled or not, no removable reference to an evicted digest stays, and a cancelled prune drops no other |
| CacheRuns.EvictionForgets | internal/cache/prune.go:221-265 | after an eviction that nothing resists no lookup leads to the digest, nothing hits it, and other lookups are as before |
| CacheRuns.HealingForgets | internal/cache/cache.go:421-427 | an open that finds a complete entry without its file drops the references to it, and no other part of a session drops any |
| CacheRuns.RefHasOrigin | internal/cache/refindex.go:137-149 | over every run a stored reference was written by a saved update that nothing later removed or replaced |
| CacheRuns.BoundedStaleness | internal/cache/refindex.go:110-133 | a reference hit is the latest stored update of that reference, at most ttl old, with no eviction, prune or clear of it in between |
| Recovery.RunsStaySound | internal/cache/entry.go:24-48 | over every run, with any registry, published files are intact, entries name their digest and size, recorded ranges lie within it, and open lazy handles have their shape |
| Recovery.OpenDeliversAfterEveryRun | internal/cache/cache.go:68-137 | after every run an Open whose own steps succeed returns the blob and leaves it published |
| Recovery.HitsAreTheBlob | internal/cache/cache.go:411-498 | a hit in a reachable cache is the blob, verified on read or not |
| Recovery.OpenedOnceServesOffline | internal/cache/cache.go:75-162 | after every run, once an Open with a delivering registry is through, every open serves the blob whatever the registry answers |
| Recovery.LazyReadsAreTrueAfterEveryRun | internal/cache/cache.go:784-875 | after every run that strands nothing a lazy handle reads the blob |
| Recovery.LazyReadsSucceedAfterEveryRun | internal/cache/cache.go:784-875 | after every run that strands nothing, with an answering registry, opening lazily succeeds and so does every read, with the blob's bytes |
| Recovery.LazyFetchesAreConservedAfterEveryRun | internal/cache/lazy_handle.go:99-129 | after every run with any registry, the bytes an open handle fetches are the growth of its coverage, within the size |
| Recovery.ReadsKeepRecordedBytesAfterEveryRun | internal/cache/lazy_handle.go:92-142 | after every run with any registry, a read alters no recorded byte of the handle's file |
| Recovery.ResumesAreConservedAfterEveryRun | internal/cache/cache.go:648-689 | after every run with any registry, a resume that gets all gaps fetches the size minus what was recorded |
| Recovery.ShortcutIsRightAfterEveryRun | client.go:218-236 | after every run the shortcut past the registry is taken exactly when Open would hit, and Open then returns the blob |
| Recovery.HitsSurvivePrune | internal/cache/cache.go:357-362 | a prune within maxAge of a hit by any of the opens leaves the digest alone, if there is no size limit or a choice of recent entries with it fits |
| Conservation.FetchesAreConservedOverRuns | internal/cache/lazy_handle.go:99-129 | over a run of lazy sessions, closes, reopenings and successful resumes, with any registry, the bytes fetched are the growth of what is recorded: none twice, never more than the size |
| Recovery.ReachableEntriesLoadable | internal/cache/prune.go:187-217 | the entries loaded from a reachable cache have distinct digests and non-negative sizes |
| Prune.MarkLRUEntries | internal/cache/prune.go:95-123 | what is marked beyond the aged entries is least recently used and no more than the limit needs |
| Prune.SelectEntriesToRemove | internal/cache/prune.go:73-92 | selects all aged entries and then as MarkLRUEntries |
| Prune.PruneIsOptimal | internal/cache/prune.go:73-123 | the kept entries are not aged, fit the limit, are most recently used, and contain every choice of recent entries that fits |
| Prune.PruneConserves | internal/cache/prune.go:126-147 | removed, remaining and failed entries partition the loaded ones in count and bytes |
| BlobCache.Cache.FullDownload | internal/cache/cache.go:554-633 | a file reaches the final path only when the whole body was written, hashes to the digest and has the size; otherwise only the temp and partial files differ |
| BlobCache.Cache.WriteRangeToFile | internal/cache/cache.go:737-756 | bytes outside the window keep their value, the file never shrinks, and success means that the window holds the data, whole |
| BlobCache.Cache.CopyGaps | internal/cache/cache.go:657-689 | whatever the registry answers, the loop records each gap it copied whole, stops at the first it did not, and leaves other digests alone |
| BlobCache.Cache.ResumeDownload | internal/cache/cache.go:636-689 | a resume fetches exactly the gaps of the stored ranges in order, saves what it got when it stops early, and publishes only after all of them |
| BlobCache.Cache.PublishPartial | internal/cache/cache.go:691-731 | a filled partial file is published exactly when it is read back and hashes to the digest; a wrong one goes with its entry |
| BlobCache.Cache.DownloadBlob | internal/cache/cache.go:527-551 | never downloads over a complete entry, resumes only recorded progress, and falls back to a full download after any failed resume |
| BlobCache.Cache.TryHit | internal/cache/cache.go:411-427 | a usable hit is touched, an unusable one is evicted, and references go exactly when that eviction succeeds, except those that resist |
| BlobCache.Cache.Open | internal/cache/cache.go:75-100 | the call is one step of the state machine on files and references, and returns the handle of that step; other digests are untouched |
| BlobCache.Cache.OpenStream | internal/cache/cache.go:112-137 | the call is one step of the state machine, and returns the content of that step |
| BlobCache.Cache.Prefetch | internal/cache/cache.go:881-904 | the background download, taken as one step of the state machine |
| BlobCache.Cache.OpenLazy | internal/cache/cache.go:784-802 | the call is one step of the state machine, and a new handle is in the state that the lazy theorems start from |
| BlobCache.Cache.OpenLazyHandle | internal/cache/cache.go:805-875 | the partial file ends up with exactly the blob's size, and recorded ranges are dropped exactly when it was longer |
| BlobCache.Cache.OpenStreamThrough | internal/cache/cache.go:147-162 | the call is one step of the state machine: a hit, or a stream over an empty temp file |
| BlobCache.Cache.StreamThrough | internal/cache/cache.go:165-201 | stale progress is dropped with its entry, as far as the removals work, before the stream starts |
| BlobCache.Cache.Evict | internal/cache/prune.go:221-237 | the call is one step of the state machine: files go in order until one resists, references only after all of them |
| BlobCache.Cache.RemoveRefFiles | internal/cache/prune.go:241-297 | exactly the references to unwanted digests go, except those that resist |
| BlobCache.Cache.ExecuteRemovals | internal/cache/prune.go:126-147 | after any cancelled or complete loop exactly the selected entries reached are evicted with their references, and report and valid digests count them |
| BlobCache.EntriesOfAll | internal/cache/prune.go:187-217 | a prune loads the stored entry of every listed digest |
| BlobCache.Cache.Prune | internal/cache/prune.go:39-70 | a complete or cancelled prune is one step of the state machine whose selection is optimal, and its report counts what was evicted and kept |
| BlobCache.Cache.Clear | internal/cache/cache.go:365-387 | the call is one step of the state machine, whichever directory removal fails; after a successful one no file and no reference is left |
| BlobCache.Cache.UpdateRefIndex | internal/cache/refindex.go:137-149 | afterwards a lookup finds the descriptor under this reference for as long as its ttl allows, and what it found before under every other |
| BlobCache.LazyHandle.ReadAt | internal/cache/lazy_handle.go:63-88 | for every int64 offset and length the call is the read of the state machine, unless the end of a window that starts inside the blob is no int64; that one is never fetched |
| BlobCache.LazyHandle.FetchMissingRanges | internal/cache/lazy_handle.go:92-142 | refines Lazy.FetchMissing: exactly the missing bytes of the window are fetched and progress is kept when it stops early |
| BlobCache.LazyHandle.VerifyAndComplete | internal/cache/lazy_handle.go:146-191 | publishes exactly a file that hashes to the digest; a failed rename leaves a complete entry and an unusable file |
| BlobCache.LazyHandle.Close | internal/cache/lazy_handle.go:202-218 | the call is one step of the state machine: progress is saved once, and other digests are untouched |
| BlobCache.CachingReader.Read | internal/cache/cache.go:219-239 | the reader advances by what it delivers, which is the next piece of the source and not empty while there is any, before and after a write error; and the call is one step of the state machine |
| BlobCache.CachingReader.DrainToCache | internal/cache/cache.go:313-346 | however the source splits its reads, exactly the missing bytes are appended, success exactly when they come without an error, and other digests are untouched |
| BlobCache.CachingReader.Close | internal/cache/cache.go:241-311 | for every way the source splits its reads the call is one step of the state machine; other digests are untouched |
| SafePath.WithinIsComponentPrefix | internal/safepath/safepath.go:164-176 | on clean absolute paths the string test is the component-prefix test |
| SafePath.ContainsTraversal | internal/safepath/safepath.go:187-195 | true exactly when some part, with backslashes as separators, is ".." |
| SafePath.TraversalIsDotDot | internal/safepath/safepath.go:184-195 | a ".." part is exactly two dots between separators of either kind, or the ends |
| SafePath.ValidatePath | internal/safepath/safepath.go:29-43 | accepts exactly the names without NUL, without a leading slash, and without two dots between separators |
| SafePath.ValidNamesStayInside | internal/safepath/safepath.go:75-84 | every accepted name joins to a path inside the destination, at the place its components say |
| SafePath.ValidateSymlink | internal/safepath/safepath.go:124-160 | for a clean destination, accepts exactly the links whose name is accepted and whose target is relative, has no NUL and no leading backslash, and leads by components to a place inside it |
| SafePath.SymlinkAcceptedIffInside | internal/safepath/safepath.go:124-160 | the string tests of the code agree with the walk over components from the link's directory |
| SafePath.ContainmentTestsAgree | internal/archive/extract.go:275-284 | the extractor's own containment test agrees with isWithinDir on all strings |
| Limits.ExtractState.CheckLimits | internal/archive/extract.go:122-145 | accepts exactly when the sizes so far and this one are within all limits and the total is an int64 |
| Limits.CheckArchive | internal/archive/extract.go:86-119 | passes exactly when the regular files are within the limits and every header but the table of contents has an accepted name, a supported type and, if it is a link, a target that leads by components to a place inside |
| Limits.ValidateExtraction | internal/safepath/safepath.go:46-114 | accepts exactly when every name stays inside and the regular files are within the limits |
| Limits.StreamingAndBatchAgree | internal/archive/extract.go:122-145 | for every list of regular files and all limits the streaming checks and the batch validator demand the same |
| Signatures.PinningAgainReplacesDigest | client.go:393-411 | pinning a pinned reference replaces its digest and keeps the repository |
| Signatures.TagDroppedIffSlash | client.go:393-411 | the tag is dropped exactly when the name before it has a slash |
| Signatures.PortIsKept | client.go:393-411 | a colon before the last slash is a port and stays |
| Signatures.VerifyManifestSignature | client.go:313-368 | verified exactly when some candidate referrer fetches and verifies, unsigned exactly when the list was read and has no candidate, failed exactly when it was not read |
| Signatures.VerifySignature | client.go:243-310 | on the registry's own answers: unresolved exactly when one is missing; else verified, pinned to the platform manifest, exactly when that manifest or the index is signed, no-signature exactly when all are unsigned |

## Left out

- Overlapping operations on one digest (two lazy handles, Prefetch during a lazy handle): the code gives no ownership per digest.
- The fields `MediaType`, `Ref`, `CreatedAt` and `Version` of entries: no modelled decision reads them.
- JSON encoding, fsync, permissions and the symbolic-link checks of `internal/cache/security.go`: loading and saving an entry are atomic steps that may fail.
- What a failing write to the temp file had already put there: the file is not read again before it is truncated or removed.
- Unreadable reference files in the clean-up of a prune (`prune.go:282-286`): the index holds readable ones, and LookupByRef has a flag for the rest.
- int64 overflow of the size totals in `prune.go:102` and `prune.go:142-145`: totals of real files stay far below it.
- CacheRuns.DoReadAt: a read whose window starts inside the blob and whose end is no int64 is no step of the state machine, because its buffer could not exist; BlobCache.LazyHandle.ReadAt says what the code does with it.
- The order in which a sort leaves equal access times: Prune's results hold for every order.
- Size, Entries and Complete: plain reads of modelled state.
- The file system during extraction (links already on disk, directory caches, races between check and use): only the lexical layer is a stated contract.
- Error values and messages: operations are told apart by what they leave and return, limit checks by accept or reject.
- Windows volume names and separators in paths.
- The tag-list cache: the reference index again with less structure.
- HTTP, OCI index resolution, archive formats, signing, command line and configuration: network plumbing and external libraries behind the oracles.
