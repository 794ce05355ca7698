/** Opening a blob eagerly: cache hit, self-healing, resume, full download
    (internal/cache/cache.go).  Each function gives the files after the operation
    and what the caller gets. */
module Download {
  import opened Ranges
  import opened Disk

  /** A handle to a complete file; the content is that of the opened inode. */
  datatype FileHandle = FileHandle(content: Blob, size: int, complete: bool)

  function CompleteEntry(desc: Descriptor, now: int): Entry {
    Entry(desc.digest, desc.size, true, true, [], now)
  }

  function HitEntry(env: Env, f: Files): Option<Entry> {
    if env.ok(ReadEntry) && f.entry.Some? && f.entry.value.Done() then f.entry else None
  }

  /** openCachedBlob and openCachedBlobFile: the file must exist with the entry's
      length and, with verifyOnRead, the entry's digest. */
  function OpenCached(cfg: Config, opens: bool, f: Files, e: Entry): Option<FileHandle> {
    if f.blob.Some? && opens && |f.blob.value| == e.size
       && (cfg.verifyOnRead ==> e.digest != "" && cfg.hash(f.blob.value) == e.digest)
    then Some(FileHandle(f.blob.value, e.size, e.complete))
    else None
  }

  /** evictLocked: final blob, partial, entry, stopping at the first failure. */
  function Evict(env: Env, f: Files): (Files, bool) {
    if f.blob.Some? && !env.ok(EvictBlob) then (f, false)
    else if f.partial.Some? && !env.ok(EvictPartial) then (f.(blob := None), false)
    else if f.entry.Some? && !env.ok(EvictEntry) then (f.(blob := None, partial := None), false)
    else (f.(blob := None, partial := None, entry := None), true)
  }

  function Save(ok: bool, f: Files, e: Entry, now: int): Files {
    if ok then f.(entry := Some(e.(lastAccessed := now))) else f
  }

  /** The registry's body reached the temp file whole, and it is the blob. */
  predicate Delivered(cfg: Config, env: Env, desc: Descriptor) {
    && env.blob.BlobBody? && !env.blob.broken
    && env.ok(CreateTmp) && env.ok(WriteTmp) && env.ok(SyncTmp) && env.ok(CloseTmp)
    && cfg.hash(env.blob.data) == desc.digest && |env.blob.data| == desc.size
    && env.ok(RenameTmp)
  }

  function LeftTmp(env: Env, f: Files): Option<Blob> {
    if env.blob.BlobError? || !env.ok(CreateTmp) then f.tmp
    else if env.ok(RemoveTmp) then None
    else Some(env.blob.data)
  }

  function FullDownload(cfg: Config, env: Env, desc: Descriptor, f: Files): (Files, bool) {
    var f1 := if env.ok(DropPartial) then f.(partial := None) else f;
    if Delivered(cfg, env, desc) then
      var f2 := f1.(blob := Some(env.blob.data), tmp := None);
      (Save(env.ok(SaveEntry), f2, CompleteEntry(desc, env.now), env.now), true)
    else
      (f1.(tmp := LeftTmp(env, f)), false)
  }

  /** The gaps that a resume has to fetch. */
  ghost function ResumeGaps(e: Entry, desc: Descriptor): seq<Range> {
    Gaps(e.ranges, desc.size)
  }

  function Partially(e: Entry, ranges: seq<Range>, desc: Descriptor): Entry {
    e.(ranges := ranges, complete := false, verified := false, size := desc.size, digest := desc.digest)
  }

  /** The file of a finished gap loop is verified as a whole and published. */
  function Publish(cfg: Config, env: Env, desc: Descriptor, f: Files, e: Entry): (Files, bool)
    requires f.partial.Some?
  {
    if !env.ok(SyncPartial) || !env.ok(HashPartial) then (f, false)
    else if cfg.hash(f.partial.value) != desc.digest then
      (f.(partial := if env.ok(DropBadPartial) then None else f.partial,
          entry := if env.ok(DropBadEntry) then None else f.entry), false)
    else if !env.ok(RenamePartial) then (f, false)
    else
      (Save(env.ok(SaveEntry), f.(blob := f.partial, partial := None),
            e.(complete := true, verified := true, ranges := []), env.now), true)
  }

  ghost function Resume(cfg: Config, env: Env, desc: Descriptor, f: Files, e: Entry): (Files, bool) {
    if f.partial.None? || !env.ok(OpenPartial) || ResumeGaps(e, desc) == [] then (f, false)
    else
      var p := FetchGaps(env, f.partial.value, e.ranges, ResumeGaps(e, desc));
      var f1 := f.(partial := Some(p.file));
      match p.end
      case RangesUnsupported => (f1, false)
      case Fetched => Publish(cfg, env, desc, f1, e)
      case _ => (Save(env.ok(SaveProgress), f1, Partially(e, p.ranges, desc), env.now), false)
  }

  ghost function DownloadBlob(cfg: Config, env: Env, desc: Descriptor, f: Files): (Files, bool) {
    if !env.ok(RereadEntry) || f.entry.None? then FullDownload(cfg, env, desc, f)
    else
      var e := f.entry.value;
      if e.Done() then (f, true)
      else if e.complete || e.ranges == [] then FullDownload(cfg, env, desc, f)
      else
        var (f1, resumed) := Resume(cfg, env, desc, f, e);
        if resumed then (f1, true) else FullDownload(cfg, env, desc, f1)
  }

  /** What a hit with an unusable file leaves behind: selfHealEvict. */
  function Healed(env: Env, f: Files): Files {
    if HitEntry(env, f).Some? then Evict(env, f).0 else f
  }

  function HitFile(cfg: Config, env: Env, f: Files): Option<FileHandle> {
    if HitEntry(env, f).Some? then OpenCached(cfg, env.ok(OpenBlob), f, f.entry.value) else None
  }

  function Touched(env: Env, f: Files): Files
    requires f.entry.Some?
  {
    Save(env.ok(TouchEntry), f, f.entry.value, env.now)
  }

  ghost function Open(cfg: Config, env: Env, desc: Descriptor, f: Files): (Files, Option<FileHandle>) {
    if HitFile(cfg, env, f).Some? then (Touched(env, f), HitFile(cfg, env, f))
    else
      var (f2, downloaded) := DownloadBlob(cfg, env, desc, Healed(env, f));
      if !downloaded || !env.ok(ReadNewEntry) || f2.entry.None? then (f2, None)
      else (f2, OpenCached(cfg, env.ok(OpenNewBlob), f2, f2.entry.value))
  }

  /** After a download OpenStream opens the final file without checking its size. */
  ghost function OpenStream(cfg: Config, env: Env, desc: Descriptor, f: Files): (Files, Option<Blob>) {
    if HitFile(cfg, env, f).Some? then (Touched(env, f), Some(HitFile(cfg, env, f).value.content))
    else
      var (f2, downloaded) := DownloadBlob(cfg, env, desc, Healed(env, f));
      (f2, if downloaded && env.ok(OpenNewBlob) then f2.blob else None)
  }

  ghost function Prefetch(cfg: Config, env: Env, desc: Descriptor, f: Files): Files {
    if HitEntry(env, f).Some? then f else DownloadBlob(cfg, env, desc, f).0
  }

  // ---------- a file at the final path hashes to its digest ----------

  ghost predicate Intact(cfg: Config, d: Digest, f: Files) {
    f.blob.Some? ==> cfg.hash(f.blob.value) == d
  }

  lemma DownloadBlobKeepsIntact(cfg: Config, env: Env, desc: Descriptor, f: Files)
    requires Intact(cfg, desc.digest, f)
    ensures Intact(cfg, desc.digest, DownloadBlob(cfg, env, desc, f).0)
  {
    if f.entry.Some? {
      assert Intact(cfg, desc.digest, Resume(cfg, env, desc, f, f.entry.value).0);
    }
  }

  /** Whatever the registry answers and whichever file steps fail. */
  lemma DownloadKeepsIntact(cfg: Config, env: Env, desc: Descriptor, f: Files)
    requires Intact(cfg, desc.digest, f)
    ensures Intact(cfg, desc.digest, Open(cfg, env, desc, f).0)
    ensures Intact(cfg, desc.digest, OpenStream(cfg, env, desc, f).0)
    ensures Intact(cfg, desc.digest, Prefetch(cfg, env, desc, f))
  {
    DownloadBlobKeepsIntact(cfg, env, desc, f);
    DownloadBlobKeepsIntact(cfg, env, desc, Healed(env, f));
  }

  // ---------- what stands cached ----------

  /** A complete, verified entry over a file of its length, and of its digest if hits are
      verified. */
  predicate Stands(cfg: Config, f: Files) {
    && f.entry.Some? && f.blob.Some?
    && f.entry.value.complete && f.entry.value.verified
    && |f.blob.value| == f.entry.value.size
    && (cfg.verifyOnRead ==> f.entry.value.digest != "" && cfg.hash(f.blob.value) == f.entry.value.digest)
  }

  /** What stands cached is hit without the registry, for any answers it would give; the
      entry is touched and nothing else changes. */
  lemma HitsNeedNoRegistry(cfg: Config, env: Env, desc: Descriptor, f: Files)
    requires Stands(cfg, f) && env.ok(ReadEntry) && env.ok(OpenBlob)
    ensures var touched := if env.ok(TouchEntry) then f.(entry := Some(f.entry.value.(lastAccessed := env.now))) else f;
      && Open(cfg, env, desc, f) == (touched, Some(FileHandle(f.blob.value, |f.blob.value|, true)))
      && OpenStream(cfg, env, desc, f) == (touched, Some(f.blob.value))
      && Prefetch(cfg, env, desc, f) == f
  {
  }

  /** Nothing else is ever hit. */
  lemma OnlyWhatStandsIsHit(cfg: Config, env: Env, f: Files)
    ensures HitFile(cfg, env, f).Some? <==> Stands(cfg, f) && env.ok(ReadEntry) && env.ok(OpenBlob)
  {
  }

  // ---------- what a download leaves ----------

  /** A full download succeeds exactly with a whole body of the right size and digest that
      every step takes to the final path, with a complete entry if that can be saved;
      otherwise blob and entry are as before.  The old partial file goes either way. */
  lemma FullDownloadOutcome(cfg: Config, env: Env, desc: Descriptor, f: Files)
    ensures var (f1, ok) := FullDownload(cfg, env, desc, f);
      && (ok <==>
            && env.blob.BlobBody? && !env.blob.broken
            && (forall s :: s in {CreateTmp, WriteTmp, SyncTmp, CloseTmp, RenameTmp} ==> env.ok(s))
            && |env.blob.data| == desc.size && cfg.hash(env.blob.data) == desc.digest)
      && f1.partial == (if env.ok(DropPartial) then None else f.partial)
      && (ok ==>
            && f1.blob == Some(env.blob.data) && f1.tmp == None
            && f1.entry == if env.ok(SaveEntry) then Some(CompleteEntry(desc, env.now)) else f.entry)
      && (!ok ==> f1.blob == f.blob && f1.entry == f.entry && (env.ok(RemoveTmp) ==> f1.tmp == None || f1.tmp == f.tmp))
  {
  }

  /** A resume of unfinished progress whose gap loop succeeds with a wrong whole: the file
      and the entry go, as far as the removals work, and nothing is published. */
  lemma WrongWholeIsDropped(cfg: Config, env: Env, desc: Descriptor, f: Files)
    requires f.entry.Some? && f.partial.Some? && env.ok(OpenPartial) && ResumeGaps(f.entry.value, desc) != []
    requires env.ok(SyncPartial) && env.ok(HashPartial)
    requires var p := FetchGaps(env, f.partial.value, f.entry.value.ranges, ResumeGaps(f.entry.value, desc));
      p.end == Fetched && cfg.hash(p.file) != desc.digest
    ensures var (f1, resumed) := Resume(cfg, env, desc, f, f.entry.value);
      && !resumed && f1.blob == f.blob && f1.tmp == f.tmp
      && (env.ok(DropBadPartial) ==> f1.partial == None)
      && f1.entry == if env.ok(DropBadEntry) then None else f.entry
  {
  }

  /** A resume that stops early saves what it got, so that a later one goes on from
      there; a registry without range requests leaves the entry as it was. */
  lemma StoppedResumeSavesProgress(cfg: Config, env: Env, desc: Descriptor, f: Files)
    requires f.entry.Some? && f.partial.Some? && env.ok(OpenPartial) && ResumeGaps(f.entry.value, desc) != []
    requires FetchGaps(env, f.partial.value, f.entry.value.ranges, ResumeGaps(f.entry.value, desc)).end != Fetched
    ensures var e := f.entry.value;
      var p := FetchGaps(env, f.partial.value, e.ranges, ResumeGaps(e, desc));
      var (f1, resumed) := Resume(cfg, env, desc, f, e);
      && !resumed && f1.partial == Some(p.file) && f1.blob == f.blob
      && (p.end == RangesUnsupported ==> f1.entry == f.entry)
      && (p.end != RangesUnsupported && env.ok(SaveProgress) ==>
            f1.entry == Some(Entry(desc.digest, desc.size, false, false, p.ranges, env.now)))
  {
  }

  /** When a download does nothing, resumes or starts over: a complete entry that another
      caller finished is left alone; only unfinished progress is resumed; and after any
      resume that does not come through, a full download starts from what it left. */
  lemma DownloadChoice(cfg: Config, env: Env, desc: Descriptor, f: Files)
    ensures var progress := f.entry.Some? && !f.entry.value.complete && f.entry.value.ranges != [];
      var done := f.entry.Some? && f.entry.value.complete && f.entry.value.verified;
      var result := DownloadBlob(cfg, env, desc, f);
      && (done && env.ok(RereadEntry) ==> result == (f, true))
      && (!env.ok(RereadEntry) || (!done && !progress) ==> result == FullDownload(cfg, env, desc, f))
      && (env.ok(RereadEntry) && progress ==>
            var resume := Resume(cfg, env, desc, f, f.entry.value);
            result == if resume.1 then resume else FullDownload(cfg, env, desc, resume.0))
  {
  }

  /** After a miss, Open succeeds exactly when the download does, the new entry can be
      read and what it describes stands; OpenStream asks only for a readable file. */
  lemma OpenAfterMiss(cfg: Config, env: Env, desc: Descriptor, f: Files)
    requires !(Stands(cfg, f) && env.ok(ReadEntry) && env.ok(OpenBlob))
    ensures var (f1, handle) := Open(cfg, env, desc, f);
      var (f2, content) := OpenStream(cfg, env, desc, f);
      var downloaded := DownloadBlob(cfg, env, desc, Healed(env, f)).1;
      && f1 == f2
      && (handle.Some? <==>
            && downloaded && env.ok(ReadNewEntry) && env.ok(OpenNewBlob)
            && f1.entry.Some? && f1.blob.Some? && |f1.blob.value| == f1.entry.value.size
            && (cfg.verifyOnRead ==>
                  f1.entry.value.digest != "" && cfg.hash(f1.blob.value) == f1.entry.value.digest))
      && (handle.Some? ==> handle.value.content == f1.blob.value && handle.value.complete == f1.entry.value.complete)
      && content == (if downloaded && env.ok(OpenNewBlob) then f1.blob else None)
  {
    OnlyWhatStandsIsHit(cfg, env, f);
  }

  // ---------- Open recovers ----------

  /** The entry of a digest, as long as it is still being filled, describes that
      digest's blob and records possible ranges. */
  ghost predicate WellFormed(desc: Descriptor, f: Files) {
    f.entry.Some? ==>
      var e := f.entry.value;
      && e.digest == desc.digest
      && (!e.Done() ==> e.size == desc.size && Recordable(e.ranges))
  }

  /** `blob` is the content of the descriptor, and nothing else hashes to its
      digest. */
  ghost predicate Names(cfg: Config, desc: Descriptor, blob: Blob) {
    && |blob| == desc.size
    && desc.digest != ""
    && forall b :: cfg.hash(b) == desc.digest <==> b == blob
  }

  /** A complete entry whose file has the entry's length but other content, and no
      verification on read to notice. */
  predicate UndetectedCorruption(cfg: Config, f: Files, desc: Descriptor) {
    && f.entry.Some? && f.entry.value.Done() && f.blob.Some?
    && |f.blob.value| == f.entry.value.size
    && !cfg.verifyOnRead
    && cfg.hash(f.blob.value) != desc.digest
  }

  lemma FullDownloadDelivers(cfg: Config, env: Env, desc: Descriptor, f: Files, blob: Blob)
    requires Names(cfg, desc, blob) && FilesOk(env) && env.blob == BlobBody(blob, false)
    ensures FullDownload(cfg, env, desc, f) ==
      (Files(Some(blob), None, None, Some(CompleteEntry(desc, env.now))), true)
  {
  }

  /** Range answers of any kind cannot spoil a download: a resume that reports
      success has the right content, any other falls back. */
  lemma DownloadDelivers(cfg: Config, env: Env, desc: Descriptor, f: Files, blob: Blob)
    requires Names(cfg, desc, blob) && WellFormed(desc, f)
    requires FilesOk(env) && env.blob == BlobBody(blob, false)
    requires f.entry.Some? ==> !f.entry.value.Done()
    ensures var (f2, downloaded) := DownloadBlob(cfg, env, desc, f);
      && downloaded && f2.blob == Some(blob) && f2.partial == None
      && f2.entry == Some(CompleteEntry(desc, env.now))
  {
    if f.entry.Some? && !f.entry.value.complete && f.entry.value.ranges != [] {
      var (f1, resumed) := Resume(cfg, env, desc, f, f.entry.value);
      if !resumed {
        FullDownloadDelivers(cfg, env, desc, f1, blob);
      }
    } else {
      FullDownloadDelivers(cfg, env, desc, f, blob);
    }
  }

  /** From any partial file, any well-formed entry, any files on disk and any
      pattern of failing or wrong range fetches, Open returns the blob, complete;
      the one exception is corruption that nothing looks for. */
  lemma OpenRecovers(cfg: Config, env: Env, desc: Descriptor, f: Files, blob: Blob)
    requires Names(cfg, desc, blob) && WellFormed(desc, f)
    requires FilesOk(env) && env.blob == BlobBody(blob, false)
    ensures Open(cfg, env, desc, f).1 == Some(FileHandle(blob, desc.size, true))
      <==> !UndetectedCorruption(cfg, f, desc)
    ensures OpenStream(cfg, env, desc, f).1 == Some(blob) <==> !UndetectedCorruption(cfg, f, desc)
    ensures !UndetectedCorruption(cfg, f, desc) ==> Open(cfg, env, desc, f).0.blob == Some(blob)
  {
    if HitFile(cfg, env, f).None? {
      DownloadDelivers(cfg, env, desc, Healed(env, f), blob);
    }
  }

  /** A background download from any files without a complete entry publishes the blob
      and its entry; a complete entry is left alone with its files. */
  lemma PrefetchPublishes(cfg: Config, env: Env, desc: Descriptor, f: Files, blob: Blob)
    requires Names(cfg, desc, blob) && WellFormed(desc, f)
    requires FilesOk(env) && env.blob == BlobBody(blob, false)
    ensures var f1 := Prefetch(cfg, env, desc, f);
      if f.entry.Some? && f.entry.value.complete && f.entry.value.verified then f1 == f
      else f1.blob == Some(blob) && f1.partial == None && f1.entry == Some(CompleteEntry(desc, env.now))
  {
    if f.entry.None? || !f.entry.value.Done() {
      DownloadDelivers(cfg, env, desc, f, blob);
    }
  }

  // ---------- a resume fetches what is missing ----------

  lemma GapsOfEntry(e: Entry, desc: Descriptor)
    requires desc.Valid() && Recordable(e.ranges) && Within(Bytes(e.ranges), desc.size)
    ensures var gaps := ResumeGaps(e, desc);
      && Canonical(gaps) && Bytes(gaps) == Span(0, desc.size) - Bytes(e.ranges)
      && forall g <- gaps :: 0 <= g.offset && 0 < g.length && g.End() <= desc.size
  {
    var gaps := ResumeGaps(e, desc);
    if desc.size <= 0 {
      assert Span(0, desc.size) - Bytes(e.ranges) == {};
    }
    CanonicalInside(gaps, desc.size);
  }

  /** A resume that gets all its gaps has fetched exactly the size minus the bytes
      that were recorded before. */
  lemma ResumeConserves(env: Env, desc: Descriptor, partial: Blob, e: Entry)
    requires desc.Valid() && Recordable(e.ranges) && Within(Bytes(e.ranges), desc.size)
    ensures var p := FetchGaps(env, partial, e.ranges, ResumeGaps(e, desc));
      p.end == Fetched ==> p.fetched == desc.size - |Bytes(e.ranges)|
  {
    var gaps := ResumeGaps(e, desc);
    GapsOfEntry(e, desc);
    FetchConserves(env, partial, e.ranges, gaps);
    SpanSize(0, desc.size);
    var p := FetchGaps(env, partial, e.ranges, gaps);
    if p.end == Fetched {
      FetchCoverage(env, partial, e.ranges, gaps);
      forall b
        ensures b in Bytes(p.ranges) <==> b in Span(0, desc.size)
      {
      }
      assert Bytes(p.ranges) == Span(0, desc.size);
    }
  }

  /** Whatever the registry answers, the bytes that were recorded before a resume
      keep their value in the file it works on. */
  lemma ResumeKeepsRecordedBytes(env: Env, desc: Descriptor, partial: Blob, e: Entry)
    ensures var p := FetchGaps(env, partial, e.ranges, ResumeGaps(e, desc));
      forall b :: 0 <= b < |partial| && b in Bytes(e.ranges) ==> b < |p.file| && p.file[b] == partial[b]
  {
    FetchFrame(env, partial, e.ranges, ResumeGaps(e, desc));
  }

  // ---------- stored entries can be worked with ----------

  lemma ResumeGapsRecordable(e: Entry, desc: Descriptor)
    requires Recordable(e.ranges) && desc.Valid()
    ensures Recordable(ResumeGaps(e, desc))
  {
    RecordableBytes(e.ranges);
    CanonicalInside(ResumeGaps(e, desc), MAX_INT64);
  }

  lemma ResumeStaysUsable(cfg: Config, env: Env, desc: Descriptor, f: Files)
    requires Usable(f) && desc.Valid() && f.entry.Some?
    ensures Usable(Resume(cfg, env, desc, f, f.entry.value).0)
  {
    var e := f.entry.value;
    ResumeGapsRecordable(e, desc);
    if f.partial.Some? {
      FetchRecordable(env, f.partial.value, e.ranges, ResumeGaps(e, desc));
    }
  }

  lemma FullDownloadStaysUsable(cfg: Config, env: Env, desc: Descriptor, f: Files)
    requires Usable(f)
    ensures Usable(FullDownload(cfg, env, desc, f).0)
  {
  }

  lemma DownloadBlobStaysUsable(cfg: Config, env: Env, desc: Descriptor, f: Files)
    requires Usable(f) && desc.Valid()
    ensures Usable(DownloadBlob(cfg, env, desc, f).0)
  {
    FullDownloadStaysUsable(cfg, env, desc, f);
    if f.entry.Some? {
      ResumeStaysUsable(cfg, env, desc, f);
      FullDownloadStaysUsable(cfg, env, desc, Resume(cfg, env, desc, f, f.entry.value).0);
    }
  }

  lemma DownloadStaysUsable(cfg: Config, env: Env, desc: Descriptor, f: Files)
    requires Usable(f) && desc.Valid()
    ensures Usable(Open(cfg, env, desc, f).0)
    ensures Usable(OpenStream(cfg, env, desc, f).0)
    ensures Usable(Prefetch(cfg, env, desc, f))
  {
    DownloadBlobStaysUsable(cfg, env, desc, f);
    DownloadBlobStaysUsable(cfg, env, desc, Healed(env, f));
  }

  // ---------- evictions and the reference shortcut ----------

  /** An eviction succeeds exactly when no present file resists.  Then nothing but the
      temp file is left; otherwise the entry stays, as it is removed last. */
  lemma EvictOutcome(env: Env, f: Files)
    ensures var (f1, ok) := Evict(env, f);
      && (ok <==> (f.blob.Some? ==> env.ok(EvictBlob)) && (f.partial.Some? ==> env.ok(EvictPartial))
                  && (f.entry.Some? ==> env.ok(EvictEntry)))
      && (ok ==> f1 == NO_FILES.(tmp := f.tmp))
      && (!ok ==> f1.entry == f.entry && f1.tmp == f.tmp)
      && f1.blob == (if env.ok(EvictBlob) then None else f.blob)
      && f1.partial == (if (f.blob.Some? ==> env.ok(EvictBlob)) && env.ok(EvictPartial) then None else f.partial)
  {
  }

  /** hasCachedBlob in client.go. */
  predicate HasCachedBlob(env: Env, f: Files) {
    HitEntry(env, f).Some? && env.ok(OpenBlob) && f.blob.Some? && |f.blob.value| == f.entry.value.size
  }
}
