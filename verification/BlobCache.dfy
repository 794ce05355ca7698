/** The cache object: its methods change the files on disk step by step, and each is
    proved to leave them as the functions of Download, Lazy and Stream say. */
module BlobCache {
  import opened Ranges
  import opened Disk
  import D = Download
  import L = Lazy
  import S = Stream
  import R = CacheRuns
  import P = Prune

  class Cache {
    const cfg: Config
    var files: map<Digest, Files>
    var refs: map<string, R.RefEntry>

    constructor (cfg: Config)
      ensures this.cfg == cfg && files == map[] && refs == map[]
    {
      this.cfg := cfg;
      files := map[];
      refs := map[];
    }

    function At(d: Digest): Files
      reads this
    {
      if d in files then files[d] else NO_FILES
    }

    method Put(d: Digest, f: Files)
      modifies this`files
      ensures files == old(files)[d := f]
    {
      files := files[d := f];
    }

    // ---------- full download ----------

    method FullDownload(env: Env, desc: Descriptor) returns (ok: bool)
      modifies this`files
      ensures var d := desc.digest;
        && files == old(files)[d := At(d)]
        && (At(d), ok) == D.FullDownload(cfg, env, desc, old(At(d)))
    {
      var d := desc.digest;
      if env.ok(DropPartial) {
        Put(d, At(d).(partial := None));
      } else {
        Put(d, At(d));
      }
      if env.blob.BlobError? || !env.ok(CreateTmp) {
        return false;
      }
      Put(d, At(d).(tmp := Some(env.blob.data)));
      if env.blob.broken || !env.ok(WriteTmp) || !env.ok(SyncTmp) || !env.ok(CloseTmp) {
        RemoveTmpFile(env, d);
        return false;
      }
      if cfg.hash(env.blob.data) != desc.digest || |env.blob.data| != desc.size || !env.ok(RenameTmp) {
        RemoveTmpFile(env, d);
        return false;
      }
      Put(d, At(d).(blob := At(d).tmp, tmp := None));
      SaveEntryFile(d, env.ok(SaveEntry), D.CompleteEntry(desc, env.now), env.now);
      ok := true;
    }

    method RemoveTmpFile(env: Env, d: Digest)
      modifies this`files
      ensures files == old(files)[d := old(At(d)).(tmp := if env.ok(RemoveTmp) then None else old(At(d)).tmp)]
    {
      Put(d, if env.ok(RemoveTmp) then At(d).(tmp := None) else At(d));
    }

    method SaveEntryFile(d: Digest, ok: bool, e: Entry, now: int)
      modifies this`files
      ensures files == old(files)[d := D.Save(ok, old(At(d)), e, now)]
    {
      Put(d, if ok then At(d).(entry := Some(e.(lastAccessed := now))) else At(d));
    }

    // ---------- resume ----------

    /** writeRangeToFile: at most `length` bytes are copied, and exactly that many or
        the copy counts as failed. */
    method WriteRangeToFile(d: Digest, data: Blob, broken: bool, offset: int, length: int) returns (ok: bool)
      requires At(d).partial.Some?
      modifies this`files
      ensures var before := old(At(d)).partial.value;
        files == old(files)[d := old(At(d)).(partial := Some(WriteAt(before, offset, Prefix(data, length))))]
      ensures At(d).partial.Some?
      ensures ok <==> !broken && 0 <= offset && 0 <= length <= |data|
      ensures var before, after := old(At(d)).partial.value, At(d).partial.value;
        && KeepsOutside(before, after, offset, length)
        && (ok && 0 < length ==>
              offset + length <= |after| && after[offset..offset + length] == data[..length])
    {
      var copied := Prefix(data, length);
      if 0 <= offset {
        WriteAtWindow(At(d).partial.value, offset, copied);
      }
      Put(d, At(d).(partial := Some(WriteAt(At(d).partial.value, offset, copied))));
      ok := !broken && 0 <= offset && |copied| == length;
    }

    /** savePartialProgress. */
    method SavePartialProgress(env: Env, desc: Descriptor, e: Entry, ranges: seq<Range>)
      modifies this`files
      ensures var d := desc.digest;
        files == old(files)[d := D.Save(env.ok(SaveProgress), old(At(d)), D.Partially(e, ranges, desc), env.now)]
    {
      SaveEntryFile(desc.digest, env.ok(SaveProgress), D.Partially(e, ranges, desc), env.now);
    }

    /** One round of the gap loop that resumeDownload and fetchMissingRanges share. */
    method CopyGap(env: Env, d: Digest, ranges: seq<Range>, gap: Range) returns (updated: seq<Range>, end: FetchEnd)
      requires At(d).partial.Some? && Recordable(ranges)
      requires 0 <= gap.offset && 0 < gap.length && gap.End() <= MAX_INT64
      modifies this`files
      ensures var one := FetchOne(env, old(At(d)).partial.value, ranges, gap);
        && files == old(files)[d := old(At(d)).(partial := Some(one.file))]
        && updated == one.ranges && end == one.end
      ensures Recordable(updated)
    {
      Put(d, At(d));
      if env.cancelled(gap.offset) {
        return ranges, Cancelled;
      }
      match env.range(gap.offset, gap.length)
      case RangeError(unsupported) =>
        return ranges, if unsupported then RangesUnsupported else FetchFailed;
      case RangeBody(data, broken) =>
        var written := WriteRangeToFile(d, data, broken, gap.offset, gap.length);
        if !written {
          return ranges, CopyFailed;
        }
        AppendRecordable(ranges, gap);
        updated := AddRange(ranges, gap);
        end := Fetched;
    }

    /** The gap loop: it stops at the first gap that is cancelled, cannot be fetched
        or cannot be copied. */
    method CopyGaps(env: Env, d: Digest, ranges: seq<Range>, gaps: seq<Range>)
      returns (updated: seq<Range>, end: FetchEnd, fetched: int)
      requires At(d).partial.Some? && Recordable(ranges) && Recordable(gaps)
      modifies this`files
      ensures var p := FetchGaps(env, old(At(d)).partial.value, ranges, gaps);
        && files == old(files)[d := old(At(d)).(partial := Some(p.file))]
        && updated == p.ranges && end == p.end && fetched == p.fetched
      ensures Recordable(updated)
    {
      ghost var start, file := At(d), At(d).partial.value;
      ghost var p := FetchGaps(env, file, ranges, gaps);
      Put(d, At(d));
      updated, end, fetched := ranges, Fetched, 0;
      assert gaps[0..] == gaps;
      for i := 0 to |gaps|
        invariant files == old(files)[d := start.(partial := Some(file))]
        invariant Recordable(updated) && end == Fetched
        invariant p == Plus(FetchGaps(env, file, updated, gaps[i..]), fetched)
      {
        PlusNext(env, file, updated, gaps, i, fetched);
        assert gaps[i] in gaps;
        ghost var one := FetchOne(env, file, updated, gaps[i]);
        updated, end := CopyGap(env, d, updated, gaps[i]);
        file := one.file;
        if end != Fetched {
          return;
        }
        fetched := fetched + gaps[i].length;
      }
    }

    method ResumeDownload(env: Env, desc: Descriptor, e: Entry) returns (ok: bool)
      requires Recordable(e.ranges) && desc.Valid()
      modifies this`files
      ensures var d := desc.digest;
        && files == old(files)[d := At(d)]
        && (At(d), ok) == D.Resume(cfg, env, desc, old(At(d)), e)
    {
      var d := desc.digest;
      if At(d).partial.None? || !env.ok(OpenPartial) {
        Put(d, At(d));
        return false;
      }
      var gaps := FindGaps(e.ranges, desc.size);
      assert gaps == D.ResumeGaps(e, desc);
      if |gaps| == 0 {
        Put(d, At(d));
        return false;
      }
      D.ResumeGapsRecordable(e, desc);
      var updatedRanges, end, _ := CopyGaps(env, d, e.ranges, gaps);
      if end == RangesUnsupported {
        return false;
      }
      if end != Fetched {
        SavePartialProgress(env, desc, e, updatedRanges);
        return false;
      }
      ok := PublishPartial(env, desc, e);
    }

    /** The rest of resumeDownload: verify the whole file and publish it. */
    method PublishPartial(env: Env, desc: Descriptor, e: Entry) returns (ok: bool)
      requires At(desc.digest).partial.Some?
      modifies this`files
      ensures var d := desc.digest;
        && files == old(files)[d := At(d)]
        && (At(d), ok) == D.Publish(cfg, env, desc, old(At(d)), e)
    {
      var d := desc.digest;
      Put(d, At(d));
      if !env.ok(SyncPartial) || !env.ok(HashPartial) {
        return false;
      }
      if cfg.hash(At(d).partial.value) != desc.digest {
        if env.ok(DropBadPartial) {
          Put(d, At(d).(partial := None));
        }
        if env.ok(DropBadEntry) {
          Put(d, At(d).(entry := None));
        }
        return false;
      }
      if !env.ok(RenamePartial) {
        return false;
      }
      Put(d, At(d).(blob := At(d).partial, partial := None));
      SaveEntryFile(d, env.ok(SaveEntry), e.(complete := true, verified := true, ranges := []), env.now);
      ok := true;
    }

    // ---------- download, hits and healing ----------

    method DownloadBlob(env: Env, desc: Descriptor) returns (ok: bool)
      requires Usable(At(desc.digest)) && desc.Valid()
      modifies this`files
      ensures var d := desc.digest;
        && files == old(files)[d := At(d)]
        && (At(d), ok) == D.DownloadBlob(cfg, env, desc, old(At(d)))
    {
      var d := desc.digest;
      var loaded := if env.ok(RereadEntry) then At(d).entry else None;
      if loaded.Some? && loaded.value.Done() {
        Put(d, At(d));
        return true;
      }
      if loaded.Some? && !loaded.value.complete && |loaded.value.ranges| > 0 {
        var resumed := ResumeDownload(env, desc, loaded.value);
        if resumed {
          return true;
        }
      }
      ok := FullDownload(env, desc);
    }

    method OpenCachedBlob(opens: bool, d: Digest, e: Entry) returns (handle: Option<D.FileHandle>)
      ensures handle == D.OpenCached(cfg, opens, At(d), e)
    {
      var f := At(d);
      if f.blob.None? || !opens {
        return None;
      }
      if |f.blob.value| != e.size {
        return None;
      }
      if cfg.verifyOnRead {
        if e.digest == "" || cfg.hash(f.blob.value) != e.digest {
          return None;
        }
      }
      handle := Some(D.FileHandle(f.blob.value, e.size, e.complete));
    }

    /** The loop of removeRefsByDigest and cleanupOrphanedRefs: every reference file that points to
        an unwanted digest goes, unless it resists. */
    method RemoveRefFiles(stuck: string -> bool, unwanted: Digest -> bool)
      modifies this`refs
      ensures refs == map r | r in old(refs) && (stuck(r) || !unwanted(old(refs)[r].digest)) :: old(refs)[r]
    {
      var listing := refs.Keys;
      while listing != {}
        invariant listing <= refs.Keys <= old(refs).Keys
        invariant forall r <- refs :: refs[r] == old(refs)[r]
        invariant forall r <- old(refs) ::
          r in refs <==> r in listing || stuck(r) || !unwanted(old(refs)[r].digest)
        decreases |listing|
      {
        var r :| r in listing;
        listing := listing - {r};
        if unwanted(refs[r].digest) && !stuck(r) {
          refs := refs - {r};
        }
      }
    }

    /** cleanupOrphanedRefs. */
    method CleanUpRefs(stuck: string -> bool, valid: set<Digest>)
      modifies this`refs
      ensures refs == R.KeptRefs(stuck, valid, old(refs))
    {
      RemoveRefFiles(stuck, (d: Digest) => d !in valid);
    }

    /** evictLocked. */
    method EvictLocked(env: Env, d: Digest) returns (ok: bool)
      modifies this
      ensures files == old(files)[d := At(d)]
      ensures (At(d), ok) == D.Evict(env, old(At(d)))
      ensures refs == R.DropRefs(ok, env.stuck, old(refs), d)
    {
      ok := EvictFiles(env, d);
      if ok {
        RemoveRefFiles(env.stuck, (x: Digest) => x == d);
      }
    }

    method Evict(env: Env, d: Digest) returns (ok: bool)
      modifies this
      ensures R.Acts(cfg, env, d, R.DoEvict, R.Idle, old(files), old(refs), R.Idle, files, refs)
      ensures ok == D.Evict(env, old(At(d))).1
    {
      ok := EvictLocked(env, d);
    }

    method EvictFiles(env: Env, d: Digest) returns (ok: bool)
      modifies this`files
      ensures files == old(files)[d := At(d)]
      ensures (At(d), ok) == D.Evict(env, old(At(d)))
    {
      Put(d, At(d));
      if At(d).blob.Some? {
        if !env.ok(EvictBlob) {
          return false;
        }
        Put(d, At(d).(blob := None));
      }
      if At(d).partial.Some? {
        if !env.ok(EvictPartial) {
          return false;
        }
        Put(d, At(d).(partial := None));
      }
      if At(d).entry.Some? {
        if !env.ok(EvictEntry) {
          return false;
        }
        Put(d, At(d).(entry := None));
      }
      ok := true;
    }

    /** The common start of all opens: a usable hit is touched and returned, an
        unusable one evicted. */
    method TryHit(env: Env, d: Digest) returns (hit: Option<D.FileHandle>)
      modifies this
      ensures files == old(files)[d := At(d)]
      ensures hit == D.HitFile(cfg, env, old(At(d)))
      ensures At(d) == if hit.Some? then D.Touched(env, old(At(d))) else D.Healed(env, old(At(d)))
      ensures refs == R.DropRefs(Heals(cfg, env, old(At(d))), env.stuck, old(refs), d)
    {
      Put(d, At(d));
      if !(env.ok(ReadEntry) && At(d).entry.Some? && At(d).entry.value.Done()) {
        return None;
      }
      var e := At(d).entry.value;
      hit := OpenCachedBlob(env.ok(OpenBlob), d, e);
      if hit.Some? {
        SaveEntryFile(d, env.ok(TouchEntry), e, env.now);
      } else {
        var _ := EvictLocked(env, d);
      }
    }

    method Open(env: Env, desc: Descriptor) returns (handle: Option<D.FileHandle>)
      requires Usable(At(desc.digest)) && desc.Valid()
      modifies this
      ensures R.Acts(cfg, env, desc.digest, R.DoOpen(desc), R.Idle, old(files), old(refs), R.Idle, files, refs)
      ensures handle == D.Open(cfg, env, desc, old(At(desc.digest))).1
    {
      var d := desc.digest;
      handle := TryHit(env, d);
      if handle.Some? {
        return;
      }
      var downloaded := DownloadBlob(env, desc);
      if !downloaded || !env.ok(ReadNewEntry) || At(d).entry.None? {
        return None;
      }
      handle := OpenCachedBlob(env.ok(OpenNewBlob), d, At(d).entry.value);
    }

    method OpenStream(env: Env, desc: Descriptor) returns (content: Option<Blob>)
      requires Usable(At(desc.digest)) && desc.Valid()
      modifies this
      ensures R.Acts(cfg, env, desc.digest, R.DoOpenStream(desc), R.Idle, old(files), old(refs), R.Idle, files, refs)
      ensures content == D.OpenStream(cfg, env, desc, old(At(desc.digest))).1
    {
      var d := desc.digest;
      var hit := TryHit(env, d);
      if hit.Some? {
        return Some(hit.value.content);
      }
      var downloaded := DownloadBlob(env, desc);
      content := if downloaded && env.ok(OpenNewBlob) then At(d).blob else None;
    }

    method Prefetch(env: Env, desc: Descriptor)
      requires Usable(At(desc.digest)) && desc.Valid()
      modifies this`files
      ensures R.Acts(cfg, env, desc.digest, R.DoPrefetch(desc), R.Idle, old(files), old(refs), R.Idle, files, refs)
    {
      var d := desc.digest;
      if env.ok(ReadEntry) && At(d).entry.Some? && At(d).entry.value.Done() {
        Put(d, At(d));
        return;
      }
      var _ := DownloadBlob(env, desc);
    }

    // ---------- lazy opening ----------

    method OpenLazy(env: Env, desc: Descriptor) returns (hit: Option<D.FileHandle>, lazy: LazyHandle?)
      requires Usable(At(desc.digest)) && desc.Valid()
      modifies this
      ensures R.Acts(cfg, env, desc.digest, R.DoOpenLazy(desc), R.Idle, old(files), old(refs),
                     if lazy == null then R.Idle else R.LazySession(lazy.View()), files, refs)
      ensures lazy != null ==> fresh(lazy) && lazy.cache == this
      ensures var opening := L.OpenLazy(cfg, env, desc, old(At(desc.digest))).1;
        hit == if opening.LazyHit? then Some(opening.file) else None
    {
      var d := desc.digest;
      hit, lazy := None, null;
      if cfg.verifyOnRead {
        Put(d, At(d));
        return;
      }
      hit := TryHit(env, d);
      if hit.None? {
        hit, lazy := OpenLazyHandle(env, desc);
      }
    }

    method OpenLazyHandle(env: Env, desc: Descriptor) returns (hit: Option<D.FileHandle>, lazy: LazyHandle?)
      requires desc.Valid()
      modifies this`files
      ensures var d := desc.digest;
        var (f, opening) := L.OpenLazyHandle(cfg, env, desc, old(At(d)));
        && files == old(files)[d := At(d)] && At(d) == f
        && (hit.Some? <==> opening.LazyHit?) && (hit.Some? ==> hit.value == opening.file)
        && (lazy != null <==> opening.LazyOpened?)
        && (lazy != null ==> fresh(lazy) && lazy.cache == this && lazy.View() == opening.handle)
    {
      var d := desc.digest;
      Put(d, At(d));
      hit, lazy := None, null;
      var loaded := if env.ok(RereadEntry) then At(d).entry else None;
      if loaded.Some? && loaded.value.Done() {
        hit := OpenCachedBlob(env.ok(OpenNewBlob), d, loaded.value);
        return;
      }
      var entry := if loaded.Some? then loaded.value else L.NewEntry(desc, env.now);
      if !env.ok(OpenPartial) {
        return;
      }
      if At(d).partial.None? {
        Put(d, At(d).(partial := Some([])));
      }
      if !env.ok(StatPartial) {
        return;
      }
      var size := |At(d).partial.value|;
      if size != desc.size {
        if size > desc.size {
          entry := entry.(ranges := []);
        }
        if !env.ok(TruncatePartial) {
          return;
        }
      }
      Put(d, At(d).(partial := Some(Truncate(At(d).partial.value, desc.size))));
      SaveEntryFile(d, env.ok(SaveProgress), entry, env.now);
      lazy := new LazyHandle(this, desc, entry);
    }

    // ---------- streaming ----------

    method OpenStreamThrough(env: Env, desc: Descriptor, source: S.Source)
      returns (hit: Option<Blob>, reader: CachingReader?)
      modifies this
      ensures R.Acts(cfg, env, desc.digest, R.DoStreamThrough(desc, source), R.Idle, old(files), old(refs),
                     if reader == null then R.Idle else R.StreamSession(reader.View()), files, refs)
      ensures reader != null ==> fresh(reader) && reader.cache == this
      ensures var opening := S.OpenStreamThrough(cfg, env, desc, source, old(At(desc.digest))).1;
        hit == if opening.StreamHit? then Some(opening.content) else None
    {
      hit, reader := None, null;
      var handle := TryHit(env, desc.digest);
      if handle.Some? {
        return Some(handle.value.content), null;
      }
      reader := StreamThrough(env, desc, source);
    }

    method StreamThrough(env: Env, desc: Descriptor, source: S.Source) returns (reader: CachingReader?)
      modifies this`files
      ensures var d := desc.digest;
        var (f, opening) := S.StreamThrough(env, desc, source, old(At(d)));
        && files == old(files)[d := f]
        && (reader == null <==> opening.StreamFailed?)
        && (reader != null ==> fresh(reader) && reader.cache == this && opening == S.Streaming(reader.View()))
    {
      var d := desc.digest;
      reader := null;
      Put(d, At(d));
      if At(d).partial.Some? {
        if env.ok(DropPartial) {
          Put(d, At(d).(partial := None));
        }
        if env.ok(DropStaleEntry) {
          Put(d, At(d).(entry := None));
        }
      }
      if env.blob.BlobError? || !env.ok(CreateTmp) {
        return;
      }
      Put(d, At(d).(tmp := Some([])));
      reader := new CachingReader(this, desc, source);
    }

    // ---------- pruning ----------

    /** One round of executeRemovals. */
    method RemoveNext(envs: Digest -> Env, entries: seq<Entry>, n: nat, toRemove: set<Digest>,
                      result: P.Result, valid: set<Digest>,
                      ghost files0: map<Digest, Files>, ghost refs0: map<string, R.RefEntry>)
      returns (newResult: P.Result, newValid: set<Digest>)
      requires P.Loadable(entries) && n < |entries| && entries[n].digest in files
      requires Removed(envs, entries[..n], toRemove, files0, refs0, files, refs, result, valid)
      modifies this
      ensures Removed(envs, entries[..n + 1], toRemove, files0, refs0, files, refs, newResult, newValid)
    {
      var e := entries[n];
      newResult, newValid := result, valid;
      RemovedStep(envs, entries, n, toRemove, files0, refs0, files, refs, result, valid);
      if e.digest in toRemove {
        var ok := EvictLocked(envs(e.digest), e.digest);
        if ok {
          newResult := result.(entriesRemoved := result.entriesRemoved + 1,
                               bytesRemoved := result.bytesRemoved + e.size);
        }
      } else {
        newResult := result.(entriesRemaining := result.entriesRemaining + 1,
                             bytesRemaining := result.bytesRemaining + e.size);
        newValid := valid + {e.digest};
      }
    }

    /** executeRemovals: `cancelledAt` is the entry before which the context ends. */
    method ExecuteRemovals(envs: Digest -> Env, entries: seq<Entry>, toRemove: set<Digest>, cancelledAt: nat)
      returns (result: P.Result, valid: set<Digest>)
      requires P.Loadable(entries) && forall e <- entries :: e.digest in files
      modifies this
      ensures Removed(envs, R.Done(entries, cancelledAt), toRemove, old(files), old(refs), files, refs, result, valid)
    {
      result, valid := P.Result(0, 0, 0, 0), {};
      NothingRemoved(envs, toRemove, files, refs);
      for i := 0 to |entries|
        invariant i <= Min(cancelledAt, |entries|)
        invariant Removed(envs, entries[..i], toRemove, old(files), old(refs), files, refs, result, valid)
      {
        if i == cancelledAt {
          return;
        }
        assert entries[i] in entries;
        result, valid := RemoveNext(envs, entries, i, toRemove, result, valid, old(files), old(refs));
      }
    }

    /** Prune: load, select, remove, and clean up the references of what is gone.
        `listing` are the digests whose entry files load. */
    method Prune(envs: Digest -> Env, listing: seq<Digest>, opts: P.Options, now: int, stuck: string -> bool,
                 cancelledAt: nat)
      returns (result: P.Result, ghost toRemove: set<Digest>)
      requires forall d <- listing :: At(d).entry.Some? && At(d).entry.value.digest == d
      requires P.Loadable(EntriesOf(listing, files))
      modifies this
      ensures var entries := EntriesOf(listing, old(files));
        var done := R.Done(entries, cancelledAt);
        && P.Selects(entries, opts, now, toRemove)
        && result == P.Report(done, toRemove, R.EvictedOf(envs, done, toRemove, old(files)))
        && R.ActsOnAll(R.DoPrune(entries, opts, now, toRemove, envs, stuck, cancelledAt),
                       old(files), old(refs), files, refs)
    {
      ghost var files0, refs0 := files, refs;
      var entries := LoadAllEntries(listing);
      EntriesAreStored(listing, files);
      toRemove := {};
      if |entries| == 0 {
        result := P.Result(0, 0, 0, 0);
        NothingRemoved(envs, toRemove, files, refs);
        RemovalsAct(envs, entries, opts, now, toRemove, stuck, cancelledAt, files0, refs0, files, refs, result, {});
        return;
      }
      var marked := P.SelectEntriesToRemove(entries, opts, now);
      toRemove := marked;
      var valid;
      result, valid := ExecuteRemovals(envs, entries, marked, cancelledAt);
      RemovalsAct(envs, entries, opts, now, marked, stuck, cancelledAt, files0, refs0, files, refs, result, valid);
      if cancelledAt < |entries| {
        return;
      }
      CleanUpRefs(stuck, valid);
    }

    // ---------- clearing and the reference index ----------

    /** Clear removes the blobs, entries, refs and tags directories in this order;
        `failing` is the first removal that fails (4 if none does), and `wipes` and
        `wipedRefs` say what it had taken by then. */
    method Clear(failing: nat, wipes: Digest -> R.Wipe, wipedRefs: set<string>) returns (ok: bool)
      modifies this
      ensures ok <==> 4 <= failing
      ensures ok ==> refs == map[] && forall d :: At(d) == NO_FILES
      ensures var allRefs := old(refs).Keys;
        R.ActsOnAll(R.DoClear((d: Digest) => ClearedFiles(failing, wipes(d)), ClearedRefs(failing, wipedRefs, allRefs)),
                    old(files), old(refs), files, refs)
    {
      if failing == 0 {
        files := map d | d in files :: R.Wiped(wipes(d).(entry := false), files[d]);
        return false;
      }
      files := map d | d in files :: files[d].(blob := None, partial := None, tmp := None);
      if failing == 1 {
        files := map d | d in files :: if wipes(d).entry then files[d].(entry := None) else files[d];
        return false;
      }
      files := map d | d in files :: files[d].(entry := None);
      if failing == 2 {
        refs := refs - wipedRefs;
        return false;
      }
      refs := map[];
      ok := failing > 3;
    }

    /** Afterwards a lookup finds the descriptor under this reference for as long as its
        ttl allows, and what it found before under every other. */
    method UpdateRefIndex(ref: string, desc: Descriptor, now: int, saves: bool)
      modifies this`refs
      ensures R.ActsOnAll(R.DoUpdateRef(ref, desc, now, saves), files, old(refs), files, refs)
      ensures forall r, ttl, at, readable ::
        R.LookupByRef(refs, r, ttl, at, readable) ==
          if saves && r == ref then (if 0 < ttl && readable && at - now <= ttl then Some(desc) else None)
          else R.LookupByRef(old(refs), r, ttl, at, readable)
    {
      assert files == map d | d in files :: files[d];
      if saves {
        refs := refs[ref := R.RefEntry(desc.digest, desc.size, now)];
      }
    }

    method LookupByRef(ref: string, ttl: int, now: int, readable: bool) returns (found: Option<Descriptor>)
      ensures found == R.LookupByRef(refs, ref, ttl, now, readable)
    {
      if ttl <= 0 || ref !in refs || !readable {
        return None;
      }
      var e := refs[ref];
      if now - e.validatedAt > ttl {
        return None;
      }
      found := Some(Descriptor(e.digest, e.size));
    }

    method HasCachedBlob(env: Env, d: Digest) returns (has: bool)
      ensures has <==> D.HasCachedBlob(env, At(d))
    {
      var f := At(d);
      if !(env.ok(ReadEntry) && f.entry.Some? && f.entry.value.Done()) {
        return false;
      }
      if f.blob.None? || !env.ok(OpenBlob) {
        return false;
      }
      has := |f.blob.value| == f.entry.value.size;
    }

    method LoadAllEntries(listing: seq<Digest>) returns (entries: seq<Entry>)
      requires forall d <- listing :: At(d).entry.Some?
      ensures entries == EntriesOf(listing, files)
    {
      entries := [];
      for i := 0 to |listing|
        invariant entries == EntriesOf(listing[..i], files)
      {
        assert listing[..i + 1][..i] == listing[..i];
        assert At(listing[i]) == R.FilesAt(files, listing[i]);
        entries := entries + [At(listing[i]).entry.value];
      }
      assert listing[..|listing|] == listing;
    }
  }

  function ClearedFiles(failing: nat, w: R.Wipe): R.Wipe {
    if failing == 0 then w.(entry := false)
    else R.Wipe(true, true, true, failing > 1 || w.entry)
  }

  function ClearedRefs(failing: nat, wipedRefs: set<string>, allRefs: set<string>): set<string> {
    if failing < 2 then {} else if failing == 2 then wipedRefs else allRefs
  }

  /** Progress that comes after `n` fetched bytes. */
  function Plus(p: Progress, n: int): Progress {
    p.(fetched := n + p.fetched)
  }

  lemma PlusNext(env: Env, file: Blob, ranges: seq<Range>, gaps: seq<Range>, i: nat, n: int)
    requires i < |gaps|
    ensures var one := FetchOne(env, file, ranges, gaps[i]);
      Plus(FetchGaps(env, file, ranges, gaps[i..]), n) ==
        if one.end != Fetched then Plus(one, n)
        else Plus(FetchGaps(env, one.file, one.ranges, gaps[i + 1..]), n + gaps[i].length)
  {
    FetchNext(env, file, ranges, gaps, i);
  }

  /** The write keeps every byte outside its window and does not shrink the file. */
  ghost predicate KeepsOutside(before: Blob, after: Blob, offset: int, length: int) {
    && |before| <= |after|
    && forall b :: 0 <= b < |before| && !(offset <= b < offset + length) ==> after[b] == before[b]
  }

  function EntriesOf(listing: seq<Digest>, files: map<Digest, Files>): seq<Entry> {
    if listing == [] then []
    else
      var rest := EntriesOf(listing[..|listing| - 1], files);
      var last := R.FilesAt(files, listing[|listing| - 1]).entry;
      if last.Some? then rest + [last.value] else rest
  }

  /** The stored entry of every listed digest, in the order of the listing. */
  lemma {:induction false} EntriesOfAll(listing: seq<Digest>, files: map<Digest, Files>)
    requires forall d <- listing :: R.FilesAt(files, d).entry.Some?
    ensures var entries := EntriesOf(listing, files);
      && |entries| == |listing|
      && forall i | 0 <= i < |listing| :: entries[i] == R.FilesAt(files, listing[i]).entry.value
  {
    if listing != [] {
      var front := listing[..|listing| - 1];
      forall d <- front
        ensures R.FilesAt(files, d).entry.Some?
      {
        assert d in listing;
      }
      EntriesOfAll(front, files);
      assert listing[|listing| - 1] in listing;
    }
  }

  lemma {:induction false} EntriesAreStored(listing: seq<Digest>, files: map<Digest, Files>)
    requires forall d <- listing :: R.FilesAt(files, d).entry.Some? && R.FilesAt(files, d).entry.value.digest == d
    ensures forall e <- EntriesOf(listing, files) :: e.digest in files && files[e.digest].entry == Some(e)
  {
    if listing != [] {
      EntriesAreStored(listing[..|listing| - 1], files);
      assert listing[|listing| - 1] in listing;
    }
  }

  /** The removals over the entries `done`: files, references and what they report. */
  ghost predicate Removed(envs: Digest -> Env, done: seq<Entry>, toRemove: set<Digest>,
                          files0: map<Digest, Files>, refs0: map<string, R.RefEntry>,
                          files: map<Digest, Files>, refs: map<string, R.RefEntry>,
                          result: P.Result, valid: set<Digest>)
  {
    && files.Keys == files0.Keys
    && (forall d :: R.FilesAt(files, d) == AfterRemovals(envs, done, toRemove, files0, d))
    && refs == R.EvictedRefs(envs, R.EvictedOf(envs, done, toRemove, files0), refs0)
    && result == P.Report(done, toRemove, R.EvictedOf(envs, done, toRemove, files0))
    && valid == P.Digests(done) - toRemove
  }

  /** The files of one digest after the removals over `done`. */
  ghost function AfterRemovals(envs: Digest -> Env, done: seq<Entry>, toRemove: set<Digest>,
                               files: map<Digest, Files>, d: Digest): Files
  {
    if d in toRemove && d in P.Digests(done) then D.Evict(envs(d), R.FilesAt(files, d)).0 else R.FilesAt(files, d)
  }

  lemma RemovedFiles(envs: Digest -> Env, done: seq<Entry>, toRemove: set<Digest>,
                     files0: map<Digest, Files>, refs0: map<string, R.RefEntry>,
                     files: map<Digest, Files>, refs: map<string, R.RefEntry>,
                     result: P.Result, valid: set<Digest>)
    requires Removed(envs, done, toRemove, files0, refs0, files, refs, result, valid)
    ensures files == map d | d in files0 ::
      if d in toRemove && d in P.Digests(done) then D.Evict(envs(d), files0[d]).0 else files0[d]
  {
    forall d | d in files
      ensures files[d] == AfterRemovals(envs, done, toRemove, files0, d)
    {
      assert files[d] == R.FilesAt(files, d);
    }
  }

  /** The removals of a prune, up to the clean-up of references that a complete one ends
      with. */
  lemma RemovalsAct(envs: Digest -> Env, entries: seq<Entry>, opts: P.Options, now: int, toRemove: set<Digest>,
                    stuck: string -> bool, cancelledAt: nat,
                    files0: map<Digest, Files>, refs0: map<string, R.RefEntry>,
                    files: map<Digest, Files>, refs: map<string, R.RefEntry>,
                    result: P.Result, valid: set<Digest>)
    requires Removed(envs, R.Done(entries, cancelledAt), toRemove, files0, refs0, files, refs, result, valid)
    ensures var op := R.DoPrune(entries, opts, now, toRemove, envs, stuck, cancelledAt);
      var complete := entries != [] && |entries| <= cancelledAt;
      R.ActsOnAll(op, files0, refs0, files, if complete then R.KeptRefs(stuck, valid, refs) else refs)
  {
    RemovedFiles(envs, R.Done(entries, cancelledAt), toRemove, files0, refs0, files, refs, result, valid);
    assert |entries| <= cancelledAt ==> R.Done(entries, cancelledAt) == entries;
  }

  lemma NothingRemoved(envs: Digest -> Env, toRemove: set<Digest>,
                       files: map<Digest, Files>, refs: map<string, R.RefEntry>)
    ensures Removed(envs, [], toRemove, files, refs, files, refs, P.Result(0, 0, 0, 0), {})
  {
    assert R.EvictedOf(envs, [], toRemove, files) == {};
    assert R.EvictedRefs(envs, {}, refs) == refs;
  }

  /** How the files, the references and the report go on with the next entry. */
  lemma RemovedStep(envs: Digest -> Env, entries: seq<Entry>, n: nat, toRemove: set<Digest>,
                    files0: map<Digest, Files>, refs0: map<string, R.RefEntry>,
                    files: map<Digest, Files>, refs: map<string, R.RefEntry>,
                    result: P.Result, valid: set<Digest>)
    requires P.Loadable(entries) && n < |entries|
    requires Removed(envs, entries[..n], toRemove, files0, refs0, files, refs, result, valid)
    ensures var e := entries[n];
      var after := entries[..n + 1];
      var evicts := e.digest in toRemove && D.Evict(envs(e.digest), R.FilesAt(files, e.digest)).1;
      && (forall x :: AfterRemovals(envs, after, toRemove, files0, x) ==
            if x == e.digest && x in toRemove then D.Evict(envs(x), R.FilesAt(files, x)).0 else R.FilesAt(files, x))
      && R.EvictedRefs(envs, R.EvictedOf(envs, after, toRemove, files0), refs0) ==
           R.DropRefs(evicts, envs(e.digest).stuck, refs, e.digest)
      && P.Report(after, toRemove, R.EvictedOf(envs, after, toRemove, files0)) ==
           (if e.digest !in toRemove then
              result.(entriesRemaining := result.entriesRemaining + 1, bytesRemaining := result.bytesRemaining + e.size)
            else if evicts then
              result.(entriesRemoved := result.entriesRemoved + 1, bytesRemoved := result.bytesRemoved + e.size)
            else result)
      && P.Digests(after) - toRemove == (if e.digest in toRemove then valid else valid + {e.digest})
  {
    var d := entries[n].digest;
    var evicted := R.EvictedOf(envs, entries[..n], toRemove, files0);
    P.DigestsSnoc(entries, n);
    RemovalStep(envs, entries, n, toRemove, files0);
    EvictedRefsStep(envs, evicted, refs0, d);
    P.ReportStep(entries, n, toRemove, evicted, D.Evict(envs(d), R.FilesAt(files0, d)).1);
  }

  lemma EvictedRefsStep(envs: Digest -> Env, evicted: set<Digest>, refs0: map<string, R.RefEntry>, d: Digest)
    requires d !in evicted
    ensures R.EvictedRefs(envs, evicted + {d}, refs0) ==
      R.DropRefs(true, envs(d).stuck, R.EvictedRefs(envs, evicted, refs0), d)
  {
  }

  lemma RemovalStep(envs: Digest -> Env, entries: seq<Entry>, n: nat, toRemove: set<Digest>, files: map<Digest, Files>)
    requires P.Loadable(entries) && n < |entries|
    ensures var d := entries[n].digest;
      var evicted := R.EvictedOf(envs, entries[..n], toRemove, files);
      && d !in evicted
      && AfterRemovals(envs, entries[..n], toRemove, files, d) == R.FilesAt(files, d)
      && R.EvictedOf(envs, entries[..n + 1], toRemove, files) ==
           (if d in toRemove && D.Evict(envs(d), R.FilesAt(files, d)).1 then evicted + {d} else evicted)
      && forall x :: AfterRemovals(envs, entries[..n + 1], toRemove, files, x) ==
           if x == d && d in toRemove then D.Evict(envs(d), R.FilesAt(files, d)).0
           else AfterRemovals(envs, entries[..n], toRemove, files, x)
  {
    P.FreshDigest(entries, n);
    P.DigestsSnoc(entries, n);
  }

  /** A lazy handle owns the partial file of its digest while it is open. */
  class LazyHandle {
    const cache: Cache
    const desc: Descriptor
    var entry: Entry
    var file: L.HandleFile
    var closed: bool

    constructor (cache: Cache, desc: Descriptor, entry: Entry)
      ensures this.cache == cache && View() == L.Handle(desc, entry, L.OnPartial, false)
    {
      this.cache, this.desc, this.entry := cache, desc, entry;
      file, closed := L.OnPartial, false;
    }

    function View(): L.Handle
      reads this
    {
      L.Handle(desc, entry, file, closed)
    }

    function Files(): Files
      reads this, cache
    {
      cache.At(desc.digest)
    }

    ghost predicate Valid()
      reads this, cache
    {
      L.Usable(Files(), View())
    }

    /** ReadAt for every int64 offset and length.  A window whose end is no int64 is
        never fetched: past the blob this changes nothing, inside it the caller gets what
        the file holds. */
    method ReadAt(env: Env, off: int, len: int) returns (result: L.ReadResult, ghost fetched: int)
      requires Valid()
      requires -MAX_INT64 - 1 <= off <= MAX_INT64 && 0 <= len <= MAX_INT64
      modifies this, cache`files
      ensures Valid()
      ensures EndFits(desc, off, len) ==>
        R.Acts(cache.cfg, env, desc.digest, R.DoReadAt(off, len),
               R.LazySession(old(View())), old(cache.files), old(cache.refs),
               R.LazySession(View()), cache.files, cache.refs)
      ensures L.ReadOutcome(Files(), View(), result, fetched) ==
        if EndFits(desc, off, len) then L.ReadAt(cache.cfg, env, old(Files()), old(View()), off, len)
        else L.ReadOutcome(old(Files()), old(View()),
                           if closed then L.ReadFailed
                           else L.FileReadAt(L.Content(old(Files()), old(View())), off, len), 0)
      ensures cache.files == old(cache.files)[desc.digest := Files()]
    {
      fetched := 0;
      cache.Put(desc.digest, Files());
      if len == 0 {
        return L.ReadOk([], false), 0;
      }
      if closed {
        return L.ReadFailed, 0;
      }
      WrappedWindow(View(), off, len);
      var contained := false;
      if !entry.complete {
        contained := ContainsRange(entry.ranges, off, len);
      }
      if entry.complete || contained {
        return L.FileReadAt(L.Content(Files(), View()), off, len), 0;
      }
      var ok;
      ok, fetched := FetchMissingRanges(env, off, len);
      if !ok {
        return L.ReadFailed, fetched;
      }
      result := L.FileReadAt(L.Content(Files(), View()), off, len);
    }

    /** What of a window is in the blob and not recorded. */
    method FindMissing(off: int, len: int) returns (gaps: seq<Range>)
      requires desc.Valid() && Recordable(entry.ranges)
      requires -MAX_INT64 - 1 <= off <= MAX_INT64 && 0 < len <= MAX_INT64
      ensures gaps == if EndFits(desc, off, len) then L.Missing(View(), off, len) else []
      ensures Recordable(gaps)
    {
      var requestEnd := Wrap64(off + len);
      if requestEnd > desc.size {
        requestEnd := desc.size;
      }
      gaps := FindGapsInRange(entry.ranges, off, Wrap64(requestEnd - off));
      GapsAreMissing(View(), off, len, gaps);
    }

    method FetchMissingRanges(env: Env, off: int, len: int) returns (ok: bool, ghost fetched: int)
      requires Valid() && !entry.complete
      requires -MAX_INT64 - 1 <= off <= MAX_INT64 && 0 < len <= MAX_INT64
      modifies this, cache`files
      ensures Valid() && closed == old(closed)
      ensures cache.files == old(cache.files)[desc.digest := Files()]
      ensures (Files(), View(), ok, fetched) ==
        if EndFits(desc, off, len) then L.FetchMissing(cache.cfg, env, old(Files()), old(View()), off, len)
        else (old(Files()), old(View()), true, 0)
    {
      cache.Put(desc.digest, Files());
      var gaps := FindMissing(off, len);
      if |gaps| == 0 {
        return true, 0;
      }
      var updated, end, n := cache.CopyGaps(env, desc.digest, entry.ranges, gaps);
      Settle(env, updated, end);
      return end == Fetched, n;
    }

    /** The rest of fetchMissingRanges, whether or not all gaps were fetched. */
    method Settle(env: Env, updated: seq<Range>, end: FetchEnd)
      requires Valid() && !entry.complete && Recordable(updated)
      modifies this, cache`files
      ensures Valid() && closed == old(closed)
      ensures cache.files == old(cache.files)[desc.digest := Files()]
      ensures (Files(), View()) ==
        L.Settle(cache.cfg, env, old(Files()), old(View()), Progress(old(Files()).partial.value, updated, end, 0))
    {
      entry := entry.(ranges := updated);
      if end == Fetched {
        var complete := IsComplete(entry.ranges, desc.size);
        if complete {
          VerifyAndComplete(env);
        }
      }
      SaveProgress(env);
    }

    method VerifyAndComplete(env: Env)
      requires Files().partial.Some? && file == L.OnPartial && !entry.complete
      requires desc.Valid() && Recordable(entry.ranges)
      modifies this, cache`files
      ensures closed == old(closed)
      ensures cache.files == old(cache.files)[desc.digest := Files()]
      ensures (Files(), View()) == L.VerifyAndComplete(cache.cfg, env, old(Files()), old(View()))
    {
      var d := desc.digest;
      cache.Put(d, cache.At(d));
      if !env.ok(SyncPartial) || !env.ok(HashPartial) {
        return;
      }
      var content := cache.At(d).partial.value;
      if cache.cfg.hash(content) != d {
        return;
      }
      entry := entry.(complete := true, verified := true, ranges := []);
      file := L.Unusable;
      if !env.ok(RenamePartial) {
        return;
      }
      cache.Put(d, cache.At(d).(blob := Some(content), partial := None));
      if env.ok(ReopenBlob) {
        file := L.OnBlob(content);
      }
    }

    method SaveProgress(env: Env)
      modifies cache`files
      ensures var d := desc.digest;
        cache.files == old(cache.files)[d := D.Save(env.ok(FileStep.SaveProgress), old(Files()), entry, env.now)]
    {
      cache.SaveEntryFile(desc.digest, env.ok(FileStep.SaveProgress), entry, env.now);
    }

    method Close(env: Env)
      requires Valid()
      modifies this, cache`files
      ensures Valid() && closed
      ensures R.Acts(cache.cfg, env, desc.digest, R.DoLazyClose,
                     R.LazySession(old(View())), old(cache.files), old(cache.refs),
                     R.Idle, cache.files, cache.refs)
      ensures View() == old(View()).(closed := true)
    {
      if closed {
        cache.Put(desc.digest, Files());
        return;
      }
      closed := true;
      SaveProgress(env);
    }
  }

  /** The window's end is an int64, or the window starts past the blob. */
  predicate EndFits(desc: Descriptor, off: int, len: int) {
    off + len <= MAX_INT64 || desc.size <= off
  }

  /** A window whose end does not fit an int64 and that starts past the blob. */
  lemma WrappedWindow(h: L.Handle, off: int, len: int)
    requires h.desc.Valid() && 0 < len <= MAX_INT64 && off <= MAX_INT64
    ensures off + len > MAX_INT64 && h.desc.size <= off ==> L.Missing(h, off, len) == []
    ensures off + len > MAX_INT64 && Recordable(h.entry.ranges) ==> !(Span(off, off + len) <= Bytes(h.entry.ranges))
  {
    if off + len > MAX_INT64 {
      if h.desc.size <= off {
        assert L.Wanted(h.desc, off, len) == {};
      }
      if Recordable(h.entry.ranges) {
        RecordableBytes(h.entry.ranges);
        assert off + len - 1 in Span(off, off + len);
      }
    }
  }

  lemma GapsAreMissing(h: L.Handle, off: int, len: int, gaps: seq<Range>)
    requires h.desc.Valid() && Recordable(h.entry.ranges)
    requires -MAX_INT64 - 1 <= off <= MAX_INT64 && 0 < len <= MAX_INT64
    requires var end := if Wrap64(off + len) > h.desc.size then h.desc.size else Wrap64(off + len);
      var length := Wrap64(end - off);
      gaps ==
        if off + length <= MAX_INT64 then Runs(Span(if off < 0 then 0 else off, off + length) - Bytes(h.entry.ranges))
        else []
    ensures gaps == if EndFits(h.desc, off, len) then L.Missing(h, off, len) else []
    ensures Recordable(gaps)
  {
    WrappedWindow(h, off, len);
    CanonicalInside(L.Missing(h, off, len), MAX_INT64);
  }

  /** cachingReader: a reader over the registry's stream that fills the temp file. */
  class CachingReader {
    const cache: Cache
    const desc: Descriptor
    const source: S.Source
    var pos: nat
    var hashed: Blob
    var failed: bool
    var closed: bool

    constructor (cache: Cache, desc: Descriptor, source: S.Source)
      ensures this.cache == cache && View() == S.Reader(desc, source, 0, [], false, false)
    {
      this.cache, this.desc, this.source := cache, desc, source;
      pos, hashed, failed, closed := 0, [], false, false;
    }

    function View(): S.Reader
      reads this
    {
      S.Reader(desc, source, pos, hashed, failed, closed)
    }

    function Files(): Files
      reads this, cache
    {
      cache.At(desc.digest)
    }

    ghost predicate Valid()
      reads this, cache
    {
      desc.Valid() && S.Teeing(Files(), View())
    }

    method Read(env: Env, n: nat) returns (chunk: S.Chunk)
      requires Valid()
      modifies this`pos, this`hashed, this`failed, cache`files
      ensures Valid()
      ensures R.Acts(cache.cfg, env, desc.digest, R.DoStreamRead(n),
                     R.StreamSession(old(View())), old(cache.files), old(cache.refs),
                     R.StreamSession(View()), cache.files, cache.refs)
      ensures chunk == S.Read(env.ok(WriteTmp), old(Files()), old(View()), n).2
      ensures pos == old(pos) + |chunk.data| && |chunk.data| <= n
      ensures pos <= |source.data| && chunk.data == source.data[old(pos)..pos]
      ensures 0 < n && old(pos) < |source.data| ==> chunk.data != []
      ensures chunk.end ==> pos == |source.data|
      ensures old(pos) == |source.data| ==> chunk.end
    {
      cache.Put(desc.digest, Files());
      chunk := S.Deliver(source, pos, n);
      pos := pos + |chunk.data|;
      if failed || |chunk.data| == 0 {
        return;
      }
      if env.ok(WriteTmp) {
        hashed := hashed + chunk.data;
        cache.Put(desc.digest, cache.At(desc.digest).(tmp := Some(hashed)));
      } else {
        failed := true;
      }
    }

    /** One round of drainToCache: a chunk is read and written. */
    method DrainChunk(env: Env, n: nat) returns (chunk: S.Chunk, writes: bool)
      requires pos <= |source.data| && Files().tmp == Some(hashed)
      modifies this`pos, this`hashed, cache`files
      ensures chunk == S.Deliver(source, old(pos), n)
      ensures writes <==> chunk.data == [] || env.ok(DrainTmp)
      ensures pos == old(pos) + if writes then |chunk.data| else 0
      ensures hashed == old(hashed) + source.data[old(pos)..pos]
      ensures cache.files == old(cache.files)[desc.digest := old(Files()).(tmp := Some(hashed))]
    {
      chunk := S.Deliver(source, pos, n);
      cache.Put(desc.digest, Files());
      writes := true;
      if |chunk.data| > 0 {
        if !env.ok(DrainTmp) {
          writes := false;
          return;
        }
        pos := pos + |chunk.data|;
        hashed := hashed + chunk.data;
        cache.Put(desc.digest, Files().(tmp := Some(hashed)));
      }
    }

    /** drainToCache: `lengths` says how many bytes each read of the source gives. */
    method DrainToCache(env: Env, lengths: nat -> nat) returns (ok: bool)
      requires S.NeedsDrain(View()) && pos <= |source.data| && Files().tmp == Some(hashed)
      modifies this`pos, this`hashed, cache`files
      ensures pos == old(pos) + if env.ok(DrainTmp) then Min(desc.size - |old(hashed)|, |source.data| - old(pos)) else 0
      ensures hashed == old(hashed) + source.data[old(pos)..pos]
      ensures cache.files == old(cache.files)[desc.digest := old(Files()).(tmp := Some(hashed))]
      ensures ok <==> S.Drains(env, old(View()))
    {
      ghost var start, before, files := pos, hashed, Files();
      cache.Put(desc.digest, Files());
      var remaining := desc.size - |hashed|;
      while remaining > 0
        invariant start <= pos <= |source.data|
        invariant 0 <= remaining == desc.size - |before| - (pos - start)
        invariant hashed == before + source.data[start..pos]
        invariant pos == start || env.ok(DrainTmp)
        invariant remaining == 0 ==> env.ok(DrainTmp) && (pos < |source.data| || !(source.eager && source.fails))
        invariant cache.files == old(cache.files)[desc.digest := files.(tmp := Some(hashed))]
      {
        ghost var here := pos;
        var chunk, writes := DrainChunk(env, Min(remaining, if lengths(pos) == 0 then 1 else lengths(pos)));
        if !writes {
          return false;
        }
        S.AppendSlice(before, source.data, start, here, pos);
        remaining := remaining - |chunk.data|;
        if chunk.end {
          return remaining == 0 && !source.fails;
        }
      }
      ok := true;
    }

    method Close(env: Env, lengths: nat -> nat)
      requires Valid()
      modifies this, cache`files
      ensures closed
      ensures R.Acts(cache.cfg, env, desc.digest, R.DoStreamClose,
                     R.StreamSession(old(View())), old(cache.files), old(cache.refs),
                     R.Idle, cache.files, cache.refs)
    {
      cache.Put(desc.digest, Files());
      if closed {
        return;
      }
      var d := desc.digest;
      var drained := true;
      if !failed && |hashed| < desc.size {
        drained := DrainToCache(env, lengths);
        assert hashed == S.Drained(env, old(View()));
      }
      closed := true;
      if failed || !drained || |hashed| != desc.size || cache.cfg.hash(hashed) != desc.digest
         || !env.ok(SyncTmp) || !env.ok(RenameTmp) {
        cache.RemoveTmpFile(env, d);
        return;
      }
      cache.Put(d, cache.At(d).(blob := cache.At(d).tmp, tmp := None));
      cache.SaveEntryFile(d, env.ok(SaveEntry), D.CompleteEntry(desc, env.now), env.now);
    }
  }

  predicate Heals(cfg: Config, env: Env, f: Files) {
    D.HitEntry(env, f).Some? && D.HitFile(cfg, env, f).None? && D.Evict(env, f).1
  }

  lemma AppendRecordable(ranges: seq<Range>, r: Range)
    requires Recordable(ranges) && 0 <= r.offset && 0 < r.length && r.End() <= MAX_INT64
    ensures Recordable(ranges + [r])
  {
  }
}
