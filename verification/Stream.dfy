/** Streaming from the registry while filling the cache (OpenStreamThrough and
    cachingReader in internal/cache/cache.go). */
module Stream {
  import opened Disk
  import opened Download

  /** The registry's reader: the bytes it delivers, whether it then reports an error
      instead of EOF, and whether it reports that end together with the last bytes
      (which io.Reader allows) or only after them. */
  datatype Source = Source(data: Blob, fails: bool, eager: bool)

  /** What one Read gives: some bytes, and possibly the end of the source. */
  datatype Chunk = Chunk(data: Blob, end: bool)

  function Deliver(src: Source, pos: nat, n: nat): Chunk
    requires pos <= |src.data|
  {
    var data := src.data[pos..Min(pos + n, |src.data|)];
    Chunk(data, pos + |data| == |src.data| && (data == [] || src.eager))
  }

  /** A caching reader: `pos` source bytes were consumed, `hashed` went to the temp
      file and the hasher, `failed` is the sticky write error. */
  datatype Reader = Reader(desc: Descriptor, source: Source, pos: nat, hashed: Blob, failed: bool, closed: bool)

  datatype StreamOpen = StreamFailed | StreamHit(content: Blob) | Streaming(reader: Reader)

  function OpenStreamThrough(cfg: Config, env: Env, desc: Descriptor, source: Source, f: Files): (Files, StreamOpen) {
    if HitFile(cfg, env, f).Some? then (Touched(env, f), StreamHit(HitFile(cfg, env, f).value.content))
    else StreamThrough(env, desc, source, Healed(env, f))
  }

  /** Stale progress is dropped, its partial file and its entry, before the stream starts. */
  function StreamThrough(env: Env, desc: Descriptor, source: Source, f: Files): (Files, StreamOpen) {
    var f1 := if f.partial.None? then f
      else f.(partial := if env.ok(DropPartial) then None else f.partial,
              entry := if env.ok(DropStaleEntry) then None else f.entry);
    if env.blob.BlobError? || !env.ok(CreateTmp) then (f1, StreamFailed)
    else (f1.(tmp := Some([])), Streaming(Reader(desc, source, 0, [], false, false)))
  }

  /** Whether a stream starts, and over which files: a blob that stands cached is handed
      out as it is; anything else is streamed from the given source, with stale progress
      gone and an empty temp file, unless the registry or the temp file fails. */
  lemma StreamStarts(cfg: Config, env: Env, desc: Descriptor, source: Source, f: Files)
    ensures var (f1, opening) := OpenStreamThrough(cfg, env, desc, source, f);
      && (Stands(cfg, f) && env.ok(ReadEntry) && env.ok(OpenBlob) ==>
            opening == StreamHit(f.blob.value) && f1.blob == f.blob)
      && (!Stands(cfg, f) ==>
            && (opening == StreamFailed <==> env.blob.BlobError? || !env.ok(CreateTmp))
            && (opening != StreamFailed ==>
                  && opening.Streaming? && opening.reader.source == source && opening.reader.desc == desc
                  && (desc.Valid() ==> Fresh(f1, opening.reader))
                  && (FilesOk(env) ==> f1.partial == None && (f.partial.Some? ==> f1.entry == None))))
  {
  }

  /** Read hands the caller what the source delivers, whatever the cache does. */
  function Read(writes: bool, f: Files, r: Reader, n: nat): (Files, Reader, Chunk)
    requires r.pos <= |r.source.data|
  {
    var chunk := Deliver(r.source, r.pos, n);
    var r1 := r.(pos := r.pos + |chunk.data|);
    if r.failed || chunk.data == [] then (f, r1, chunk)
    else if !writes then (f, r1.(failed := true), chunk)
    else (f.(tmp := Some(r.hashed + chunk.data)), r1.(hashed := r.hashed + chunk.data), chunk)
  }

  /** Close reads on until `size` bytes are written; the source delivers them
      without an error. */
  predicate Drains(env: Env, r: Reader)
    requires r.pos <= |r.source.data|
  {
    var missing := r.desc.size - |r.hashed|;
    var available := |r.source.data| - r.pos;
    && env.ok(DrainTmp)
    && (missing < available || (missing == available && !(r.source.eager && r.source.fails)))
  }

  predicate NeedsDrain(r: Reader) {
    !r.failed && |r.hashed| < r.desc.size
  }

  /** What was written once Close has read on. */
  function Drained(env: Env, r: Reader): Blob
    requires r.pos <= |r.source.data|
  {
    if NeedsDrain(r) && env.ok(DrainTmp)
    then r.hashed + r.source.data[r.pos..r.pos + Min(r.desc.size - |r.hashed|, |r.source.data| - r.pos)]
    else r.hashed
  }

  function Close(cfg: Config, env: Env, f: Files, r: Reader): Files
    requires r.pos <= |r.source.data|
  {
    if r.closed then f
    else
      var all := Drained(env, r);
      var f1 := if NeedsDrain(r) then f.(tmp := Some(all)) else f;
      if r.failed || (NeedsDrain(r) && !Drains(env, r)) || |all| != r.desc.size
         || cfg.hash(all) != r.desc.digest || !env.ok(SyncTmp) || !env.ok(RenameTmp)
      then f1.(tmp := if env.ok(RemoveTmp) then None else f1.tmp)
      else Save(env.ok(SaveEntry), f1.(blob := Some(all), tmp := None), CompleteEntry(r.desc, env.now), env.now)
  }

  /** Until a write fails, the temp file holds exactly the consumed source bytes. */
  ghost predicate Teeing(f: Files, r: Reader) {
    && r.pos <= |r.source.data|
    && (!r.failed && !r.closed ==> r.hashed == r.source.data[..r.pos] && f.tmp == Some(r.hashed))
  }

  lemma ReadTees(writes: bool, f: Files, r: Reader, n: nat)
    requires Teeing(f, r)
    ensures var (f1, r1, chunk) := Read(writes, f, r, n);
      && Teeing(f1, r1) && r.pos <= r1.pos && chunk.data == r.source.data[r.pos..r1.pos]
      && r1.source == r.source && r1.desc == r.desc
      && (r.failed ==> r1.failed) && (writes ==> r1.failed == r.failed)
      && f1.(tmp := f.tmp) == f
  {
    var (_, r1, chunk) := Read(writes, f, r, n);
    SliceJoin(r.source.data, 0, r.pos, r1.pos);
  }

  // ---------- every read schedule ----------

  lemma AppendSlice(before: Blob, data: Blob, a: nat, b: nat, c: nat)
    requires a <= b <= c <= |data|
    ensures before + data[a..b] + data[b..c] == before + data[a..c]
  {
    SliceJoin(data, a, b, c);
  }

  /** A Read call: how many bytes the source gives, and whether the cache write works. */
  datatype Call = Call(n: nat, writes: bool)

  datatype Run = Run(files: Files, reader: Reader, seen: Blob)

  /** The bytes that a schedule asks for. */
  function Requested(calls: seq<Call>): nat {
    if calls == [] then 0 else calls[0].n + Requested(calls[1..])
  }

  function RunReads(f: Files, r: Reader, calls: seq<Call>): (run: Run)
    requires r.pos <= |r.source.data|
    ensures run.reader.pos <= |r.source.data|
    ensures run.reader.source == r.source && run.reader.desc == r.desc && run.reader.closed == r.closed
    decreases |calls|
  {
    if calls == [] then Run(f, r, [])
    else
      var (f1, r1, chunk) := Read(calls[0].writes, f, r, calls[0].n);
      var rest := RunReads(f1, r1, calls[1..]);
      rest.(seen := chunk.data + rest.seen)
  }

  /** A run consumes what it asks for, or all there is, whichever writes fail. */
  lemma {:induction false} RunEnds(f: Files, r: Reader, calls: seq<Call>)
    requires r.pos <= |r.source.data|
    ensures RunReads(f, r, calls).reader.pos == Min(r.pos + Requested(calls), |r.source.data|)
    decreases |calls|
  {
    if calls != [] {
      var (f1, r1, _) := Read(calls[0].writes, f, r, calls[0].n);
      RunEnds(f1, r1, calls[1..]);
    }
  }

  /** The caller sees the source bytes, in order and unchanged, as many as it asks for or
      as there are, however the reads are split and whether or not cache writes fail;
      only the temp file changes. */
  lemma {:induction false} StreamIsTransparent(f: Files, r: Reader, calls: seq<Call>)
    requires Teeing(f, r)
    ensures var run := RunReads(f, r, calls);
      && Teeing(run.files, run.reader)
      && r.pos <= run.reader.pos == Min(r.pos + Requested(calls), |r.source.data|)
      && run.seen == r.source.data[r.pos..run.reader.pos]
      && (r.failed ==> run.reader.failed)
      && ((forall c <- calls :: c.writes) ==> run.reader.failed == r.failed)
      && run.files.(tmp := f.tmp) == f
    decreases |calls|
  {
    RunEnds(f, r, calls);
    if calls != [] {
      var (f1, r1, chunk) := Read(calls[0].writes, f, r, calls[0].n);
      ReadTees(calls[0].writes, f, r, calls[0].n);
      StreamIsTransparent(f1, r1, calls[1..]);
      SliceJoin(r.source.data, r.pos, r1.pos, RunReads(f1, r1, calls[1..]).reader.pos);
    }
  }

  lemma SliceJoin(data: Blob, a: nat, b: nat, c: nat)
    requires a <= b <= c <= |data|
    ensures data[a..b] + data[b..c] == data[a..c]
  {
  }

  ghost predicate Fresh(f: Files, r: Reader) {
    && r.pos == 0 && r.hashed == [] && !r.failed && !r.closed && f.tmp == Some([])
    && r.desc.Valid()
  }

  /** The first `size` source bytes exist and are the blob. */
  predicate SourceHasBlob(cfg: Config, r: Reader) {
    && 0 <= r.desc.size <= |r.source.data|
    && cfg.hash(r.source.data[..r.desc.size]) == r.desc.digest
  }

  /** A source of exactly `size` bytes that reports an error together with its last
      bytes: those bytes are good only if the caller, not Close, reads them. */
  predicate FailsOnLastByte(r: Reader) {
    r.source.fails && r.source.eager && |r.source.data| == r.desc.size
  }

  /** The caller stopped at or before the end of the blob, and what it left can be read
      and written; the single exception is a source that fails on its last byte. */
  predicate ReachesEnd(env: Env, r: Reader, pos: nat) {
    && pos <= r.desc.size
    && (pos < r.desc.size ==> env.ok(DrainTmp) && !FailsOnLastByte(r))
  }

  /** Close publishes the first `size` source bytes exactly when they exist, hash to the
      digest, are reached, and the file can be synced and renamed, however the caller
      read; otherwise nothing changes but the temp file, which goes if it can. */
  lemma StreamPublishes(cfg: Config, env: Env, f: Files, r: Reader, calls: seq<Call>)
    requires Fresh(f, r)
    requires forall c <- calls :: c.writes
    ensures var run := RunReads(f, r, calls);
      var f2 := Close(cfg, env, run.files, run.reader);
      if SourceHasBlob(cfg, r) && ReachesEnd(env, r, run.reader.pos) && env.ok(SyncTmp) && env.ok(RenameTmp)
      then
        f2 == Files(Some(r.source.data[..r.desc.size]), f.partial, None,
                    if env.ok(SaveEntry) then Some(CompleteEntry(r.desc, env.now)) else f.entry)
      else
        f2.(tmp := f.tmp) == f && (env.ok(RemoveTmp) ==> f2.tmp == None)
  {
    StreamIsTransparent(f, r, calls);
    var run := RunReads(f, r, calls);
    var data := r.source.data;
    if run.reader.pos <= r.desc.size <= |data| {
      assert data[..r.desc.size] == data[..run.reader.pos] + data[run.reader.pos..r.desc.size];
    }
  }

  /** What Close publishes from this source is what already stands there. */
  predicate AlreadyPublished(env: Env, f: Files, r: Reader)
    requires 0 <= r.desc.size <= |r.source.data|
  {
    f.blob == Some(r.source.data[..r.desc.size]) && f.entry == Some(CompleteEntry(r.desc, env.now))
  }

  /** So two read schedules leave the same files exactly when the source does not fail
      on the last byte of the blob, or both treat that byte alike, or publishing changes
      nothing. */
  lemma SchedulesAgree(cfg: Config, env: Env, f: Files, r: Reader, calls1: seq<Call>, calls2: seq<Call>)
    requires Fresh(f, r) && FilesOk(env)
    requires forall c <- calls1 :: c.writes
    requires forall c <- calls2 :: c.writes
    requires RunReads(f, r, calls1).reader.pos <= r.desc.size
    requires RunReads(f, r, calls2).reader.pos <= r.desc.size
    ensures var run1, run2 := RunReads(f, r, calls1), RunReads(f, r, calls2);
      var alike := run1.reader.pos == r.desc.size <==> run2.reader.pos == r.desc.size;
      Close(cfg, env, run1.files, run1.reader) == Close(cfg, env, run2.files, run2.reader) <==>
        !(SourceHasBlob(cfg, r) && FailsOnLastByte(r)) || alike || AlreadyPublished(env, f, r)
  {
    StreamPublishes(cfg, env, f, r, calls1);
    StreamPublishes(cfg, env, f, r, calls2);
  }

  /** One byte, delivered together with an error: the schedule that reads it publishes,
      the one that leaves it to Close does not. */
  lemma SchedulesDisagree(cfg: Config, env: Env)
    requires FilesOk(env)
    ensures var f := NO_FILES.(tmp := Some([]));
      var r := Reader(Descriptor(cfg.hash([1]), 1), Source([1], true, true), 0, [], false, false);
      var run1, run2 := RunReads(f, r, [Call(1, true)]), RunReads(f, r, []);
      && Close(cfg, env, run1.files, run1.reader).blob == Some([1])
      && Close(cfg, env, run2.files, run2.reader).blob == None
  {
    var f := NO_FILES.(tmp := Some([]));
    var r := Reader(Descriptor(cfg.hash([1]), 1), Source([1], true, true), 0, [], false, false);
    assert r.source.data[..1] == [1];
    StreamPublishes(cfg, env, f, r, [Call(1, true)]);
    StreamPublishes(cfg, env, f, r, []);
  }

  /** A second Close changes nothing. */
  lemma ClosedStaysClosed(cfg: Config, env: Env, f: Files, r: Reader)
    requires r.pos <= |r.source.data| && r.closed
    ensures Close(cfg, env, f, r) == f
  {
  }

  /** After a failed cache write nothing is published, whatever happens at Close. */
  lemma FailedWritePublishesNothing(cfg: Config, env: Env, f: Files, r: Reader, calls: seq<Call>)
    requires Teeing(f, r) && !r.closed
    requires RunReads(f, r, calls).reader.failed
    ensures var run := RunReads(f, r, calls);
      Close(cfg, env, run.files, run.reader).(tmp := f.tmp) == f
  {
    StreamIsTransparent(f, r, calls);
  }
}
