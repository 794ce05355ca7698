/** End to end: no run of the cache, whatever the registry answered and whichever
    file steps failed on the way, keeps a later Open from delivering the blob. */
module Recovery {
  import opened Ranges
  import opened Disk
  import opened Download
  import opened CacheRuns
  import opened Truth
  import Lazy
  import Prune
  import Stream

  // ---------- stored entries describe the blob that was asked for ----------

  predicate Describes(e: Option<Entry>, desc: Descriptor) {
    e.Some? ==> e.value.digest == desc.digest && e.value.size == desc.size
  }

  ghost predicate SlotDescribes(desc: Descriptor, s: Slot) {
    && Describes(s.files.entry, desc)
    && (s.session.LazySession? ==> s.session.handle.desc == desc && Describes(Some(s.session.handle.entry), desc))
    && (s.session.StreamSession? ==> s.session.reader.desc == desc)
  }

  lemma ResumeDescribes(cfg: Config, env: Env, desc: Descriptor, f: Files)
    requires f.entry.Some? && Describes(f.entry, desc)
    ensures Describes(Resume(cfg, env, desc, f, f.entry.value).0.entry, desc)
  {
  }

  lemma DownloadDescribes(cfg: Config, env: Env, desc: Descriptor, f: Files)
    requires Describes(f.entry, desc)
    ensures Describes(DownloadBlob(cfg, env, desc, f).0.entry, desc)
  {
    if f.entry.Some? {
      ResumeDescribes(cfg, env, desc, f);
    }
  }

  lemma OpeningDescribes(cfg: Config, env: Env, desc: Descriptor, f: Files)
    requires Describes(f.entry, desc)
    ensures Describes(Open(cfg, env, desc, f).0.entry, desc)
    ensures Describes(OpenStream(cfg, env, desc, f).0.entry, desc)
    ensures Describes(Prefetch(cfg, env, desc, f).entry, desc)
  {
    DownloadDescribes(cfg, env, desc, f);
    DownloadDescribes(cfg, env, desc, Healed(env, f));
  }

  lemma ReadDescribes(cfg: Config, env: Env, desc: Descriptor, f: Files, h: Lazy.Handle, off: int, len: int)
    requires Describes(f.entry, desc) && Describes(Some(h.entry), desc) && h.desc == desc
    ensures var o := Lazy.ReadAt(cfg, env, f, h, off, len);
      Describes(o.files.entry, desc) && Describes(Some(o.handle.entry), desc) && o.handle.desc == desc
  {
  }

  lemma SessionsDescribe(cfg: Config, env: Env, desc: Descriptor, source: Stream.Source, f: Files)
    requires Describes(f.entry, desc)
    ensures var (f1, opening) := Lazy.OpenLazy(cfg, env, desc, f);
      && Describes(f1.entry, desc)
      && (opening.LazyOpened? ==> opening.handle.desc == desc && Describes(Some(opening.handle.entry), desc))
    ensures var (f1, opening) := Stream.OpenStreamThrough(cfg, env, desc, source, f);
      Describes(f1.entry, desc) && (opening.Streaming? ==> opening.reader.desc == desc)
  {
    assert Describes(Healed(env, f).entry, desc);
  }

  lemma SlotStaysDescribed(cfg: Config, env: Env, desc: Descriptor, op: SlotOp, s: Slot)
    requires Allowed(desc.digest, op, s) && AsksFor(op, desc.size) && SlotDescribes(desc, s)
    ensures SlotDescribes(desc, SlotStep(cfg, env, op, s))
  {
    match op
    case DoOpen(_) => OpeningDescribes(cfg, env, desc, s.files);
    case DoOpenStream(_) => OpeningDescribes(cfg, env, desc, s.files);
    case DoPrefetch(_) => OpeningDescribes(cfg, env, desc, s.files);
    case DoOpenLazy(_) => SessionsDescribe(cfg, env, desc, Stream.Source([], false, false), s.files);
    case DoStreamThrough(_, source) => SessionsDescribe(cfg, env, desc, source, s.files);
    case DoReadAt(off, len) => ReadDescribes(cfg, env, desc, s.files, s.session.handle, off, len);
    case _ =>
  }

  /** Callers agree on the size of each digest's blob. */
  predicate Consistent(op: Op, sizes: Digest -> int) {
    op.On? ==> AsksFor(op.op, sizes(op.digest)) && 0 <= sizes(op.digest) <= MAX_INT64
  }

  // ---------- shape: what is recorded fits the blob ----------

  /** Whatever the registry answered: recorded ranges lie within the size, the partial
      file is no longer than it, and an open lazy handle has its shape. */
  ghost predicate SlotShaped(size: int, s: Slot) {
    && (s.files.partial.Some? ==> |s.files.partial.value| <= size)
    && (s.files.entry.Some? && !s.files.entry.value.complete ==> Within(Bytes(s.files.entry.value.ranges), size))
    && (s.session.LazySession? ==> Lazy.Shaped(s.files, s.session.handle))
  }

  ghost predicate FilesShaped(size: int, f: Files) {
    SlotShaped(size, Slot(f, Idle))
  }

  lemma FetchStaysShaped(env: Env, desc: Descriptor, partial: Blob, e: Entry)
    requires desc.Valid() && Recordable(e.ranges) && Within(Bytes(e.ranges), desc.size) && |partial| <= desc.size
    ensures var p := FetchGaps(env, partial, e.ranges, ResumeGaps(e, desc));
      |p.file| <= desc.size && Within(Bytes(p.ranges), desc.size)
  {
    var gaps := ResumeGaps(e, desc);
    GapsOfEntry(e, desc);
    FetchLength(env, partial, e.ranges, gaps, desc.size);
    FetchCoverage(env, partial, e.ranges, gaps);
  }

  lemma PublishStaysShaped(cfg: Config, env: Env, desc: Descriptor, f: Files, e: Entry)
    requires f.partial.Some? && FilesShaped(desc.size, f)
    ensures FilesShaped(desc.size, Publish(cfg, env, desc, f, e).0)
  {
  }

  lemma ResumeStaysShaped(cfg: Config, env: Env, desc: Descriptor, f: Files)
    requires desc.Valid() && Usable(f) && FilesShaped(desc.size, f)
    requires f.entry.Some? && !f.entry.value.complete
    ensures FilesShaped(desc.size, Resume(cfg, env, desc, f, f.entry.value).0)
  {
    if f.partial.Some? {
      var e := f.entry.value;
      var fetched := f.(partial := Some(FetchGaps(env, f.partial.value, e.ranges, ResumeGaps(e, desc)).file));
      FetchStaysShaped(env, desc, f.partial.value, e);
      PublishStaysShaped(cfg, env, desc, fetched, e);
    }
  }

  lemma FullDownloadStaysShaped(cfg: Config, env: Env, desc: Descriptor, f: Files)
    requires FilesShaped(desc.size, f)
    ensures FilesShaped(desc.size, FullDownload(cfg, env, desc, f).0)
  {
  }

  lemma DownloadStaysShaped(cfg: Config, env: Env, desc: Descriptor, f: Files)
    requires desc.Valid() && Usable(f) && FilesShaped(desc.size, f)
    ensures FilesShaped(desc.size, DownloadBlob(cfg, env, desc, f).0)
  {
    FullDownloadStaysShaped(cfg, env, desc, f);
    if f.entry.Some? && !f.entry.value.complete {
      ResumeStaysShaped(cfg, env, desc, f);
      FullDownloadStaysShaped(cfg, env, desc, Resume(cfg, env, desc, f, f.entry.value).0);
    }
  }

  lemma OpeningStaysShaped(cfg: Config, env: Env, desc: Descriptor, f: Files)
    requires desc.Valid() && Usable(f) && FilesShaped(desc.size, f)
    ensures FilesShaped(desc.size, Open(cfg, env, desc, f).0)
    ensures FilesShaped(desc.size, OpenStream(cfg, env, desc, f).0)
    ensures FilesShaped(desc.size, Prefetch(cfg, env, desc, f))
  {
    DownloadStaysShaped(cfg, env, desc, f);
    DownloadStaysShaped(cfg, env, desc, Healed(env, f));
  }

  lemma LazyOpenStaysShaped(cfg: Config, env: Env, desc: Descriptor, f: Files)
    requires desc.Valid() && Usable(f) && FilesShaped(desc.size, f)
    ensures var (f1, opening) := Lazy.OpenLazy(cfg, env, desc, f);
      FilesShaped(desc.size, f1) && (opening.LazyOpened? ==> Lazy.Shaped(f1, opening.handle))
  {
    var g := Healed(env, f);
    assert FilesShaped(desc.size, g) && Usable(g);
    assert Bytes([]) == {};
  }

  lemma SettleStaysShaped(cfg: Config, env: Env, f: Files, h: Lazy.Handle, p: Progress)
    requires FilesShaped(h.desc.size, f) && !h.entry.complete
    requires |p.file| == h.desc.size && Within(Bytes(p.ranges), h.desc.size)
    ensures FilesShaped(h.desc.size, Lazy.Settle(cfg, env, f, h, p).0)
  {
  }

  /** What a read writes never makes the partial file longer than the blob. */
  lemma ReadStaysShaped(cfg: Config, env: Env, f: Files, h: Lazy.Handle, off: int, len: int)
    requires FilesShaped(h.desc.size, f) && Lazy.Shaped(f, h)
    ensures var o := Lazy.ReadAt(cfg, env, f, h, off, len);
      FilesShaped(h.desc.size, o.files) && Lazy.Shaped(o.files, o.handle)
  {
    Lazy.ReadCovers(cfg, env, f, h, off, len);
    if !h.entry.complete {
      Lazy.GapShape(env, f, h, off, len);
      SettleStaysShaped(cfg, env, f, h, Lazy.GapFetch(env, f, h, off, len));
    }
  }

  lemma StreamStaysShaped(cfg: Config, env: Env, desc: Descriptor, source: Stream.Source, f: Files)
    requires FilesShaped(desc.size, f)
    ensures FilesShaped(desc.size, Stream.OpenStreamThrough(cfg, env, desc, source, f).0)
  {
    assert FilesShaped(desc.size, Healed(env, f));
  }

  lemma StreamSessionStaysShaped(cfg: Config, env: Env, size: int, f: Files, r: Stream.Reader, n: nat)
    requires FilesShaped(size, f) && r.pos <= |r.source.data|
    ensures FilesShaped(size, Stream.Read(env.ok(WriteTmp), f, r, n).0)
    ensures FilesShaped(size, Stream.Close(cfg, env, f, r))
  {
  }

  lemma SlotStaysShaped(cfg: Config, env: Env, desc: Descriptor, op: SlotOp, s: Slot)
    requires Allowed(desc.digest, op, s) && AsksFor(op, desc.size) && desc.Valid()
    requires SlotUsable(s) && SlotDescribes(desc, s) && SlotShaped(desc.size, s)
    ensures SlotShaped(desc.size, SlotStep(cfg, env, op, s))
  {
    match op
    case DoOpen(_) => OpeningStaysShaped(cfg, env, desc, s.files);
    case DoOpenStream(_) => OpeningStaysShaped(cfg, env, desc, s.files);
    case DoPrefetch(_) => OpeningStaysShaped(cfg, env, desc, s.files);
    case DoOpenLazy(_) => LazyOpenStaysShaped(cfg, env, desc, s.files);
    case DoStreamThrough(_, source) => StreamStaysShaped(cfg, env, desc, source, s.files);
    case DoStreamRead(n) => StreamSessionStaysShaped(cfg, env, desc.size, s.files, s.session.reader, n);
    case DoStreamClose => StreamSessionStaysShaped(cfg, env, desc.size, s.files, s.session.reader, 0);
    case DoReadAt(off, len) => ReadStaysShaped(cfg, env, s.files, s.session.handle, off, len);
    case _ =>
  }

  // ---------- what every reachable cache satisfies ----------

  ghost predicate SlotSound(cfg: Config, desc: Descriptor, s: Slot) {
    SlotIntact(cfg, desc.digest, s) && SlotUsable(s) && SlotDescribes(desc, s) && SlotShaped(desc.size, s)
  }

  ghost predicate Sound(cfg: Config, c: Cache, sizes: Digest -> int) {
    forall d :: SlotSound(cfg, Descriptor(d, sizes(d)), At(c, d))
  }

  lemma SlotStaysSound(cfg: Config, env: Env, desc: Descriptor, op: SlotOp, s: Slot)
    requires Allowed(desc.digest, op, s) && AsksFor(op, desc.size) && desc.Valid() && SlotSound(cfg, desc, s)
    ensures SlotSound(cfg, desc, SlotStep(cfg, env, op, s))
  {
    SlotKeepsIntact(cfg, env, desc.digest, op, s);
    SlotStaysUsable(cfg, env, desc.digest, op, s);
    SlotStaysDescribed(cfg, env, desc, op, s);
    SlotStaysShaped(cfg, env, desc, op, s);
  }

  lemma WholeStaysSound(cfg: Config, op: Op, desc: Descriptor, s: Slot)
    requires !op.On? && SlotSound(cfg, desc, s)
    requires s.session.Idle? || WholeStep(op, desc.digest, s.files) == s.files
    ensures SlotSound(cfg, desc, s.(files := WholeStep(op, desc.digest, s.files)))
  {
    WholeKeepsIntact(cfg, op, desc.digest, s);
    WholeStaysUsable(op, desc.digest, s);
  }

  lemma StepStaysSound(cfg: Config, op: Op, c: Cache, sizes: Digest -> int)
    requires Enabled(op, c) && Sound(cfg, c, sizes) && Consistent(op, sizes)
    ensures Sound(cfg, Step(cfg, op, c), sizes)
  {
    forall d
      ensures SlotSound(cfg, Descriptor(d, sizes(d)), At(Step(cfg, op, c), d))
    {
      StepAt(cfg, op, c, d);
      assert SlotSound(cfg, Descriptor(d, sizes(d)), At(c, d));
      if !op.On? {
        WholeRespectsSessions(op, c, d);
        WholeStaysSound(cfg, op, Descriptor(d, sizes(d)), At(c, d));
      } else if d == op.digest {
        SlotStaysSound(cfg, op.env, Descriptor(d, sizes(d)), op.op, At(c, d));
      }
    }
  }

  lemma {:induction false} RunsStaySound(cfg: Config, c: Cache, ops: seq<Op>, sizes: Digest -> int)
    requires Sound(cfg, c, sizes) && forall op <- ops :: Consistent(op, sizes)
    ensures Sound(cfg, After(cfg, c, ops), sizes)
  {
    if ops != [] {
      var op := ops[|ops| - 1];
      var before := After(cfg, c, ops[..|ops| - 1]);
      RunsStaySound(cfg, c, ops[..|ops| - 1], sizes);
      assert op in ops;
      if Enabled(op, before) {
        StepStaysSound(cfg, op, before, sizes);
      }
    }
  }

  // ---------- what follows for the next operation ----------

  /** After every run, an Open whose own file steps succeed and whose registry
      delivers the blob returns the blob, complete, and leaves it published. */
  lemma OpenDeliversAfterEveryRun(cfg: Config, c: Cache, ops: seq<Op>, sizes: Digest -> int,
                                  env: Env, desc: Descriptor, blob: Blob)
    requires Sound(cfg, c, sizes) && forall op <- ops :: Consistent(op, sizes)
    requires desc.size == sizes(desc.digest) && Names(cfg, desc, blob)
    requires FilesOk(env) && env.blob == BlobBody(blob, false)
    ensures var f := At(After(cfg, c, ops), desc.digest).files;
      && Open(cfg, env, desc, f).1 == Some(FileHandle(blob, desc.size, true))
      && OpenStream(cfg, env, desc, f).1 == Some(blob)
      && Open(cfg, env, desc, f).0.blob == Some(blob)
  {
    RunsStaySound(cfg, c, ops, sizes);
    var s := At(After(cfg, c, ops), desc.digest);
    assert SlotSound(cfg, Descriptor(desc.digest, sizes(desc.digest)), s);
    OpenRecovers(cfg, env, desc, s.files, blob);
  }

  /** A hit in a reachable cache is never wrong, verified on read or not. */
  lemma HitsAreTheBlob(cfg: Config, c: Cache, ops: seq<Op>, sizes: Digest -> int,
                       env: Env, desc: Descriptor, blob: Blob)
    requires Sound(cfg, c, sizes) && forall op <- ops :: Consistent(op, sizes)
    requires desc.size == sizes(desc.digest) && Names(cfg, desc, blob)
    ensures var hit := HitFile(cfg, env, At(After(cfg, c, ops), desc.digest).files);
      hit.Some? ==> hit.value == FileHandle(blob, desc.size, true)
  {
    RunsStaySound(cfg, c, ops, sizes);
    var s := At(After(cfg, c, ops), desc.digest);
    assert SlotSound(cfg, Descriptor(desc.digest, sizes(desc.digest)), s);
  }

  /** After every run that strands none of the blob's progress, a handle that is
      after lazily reads the blob, however its reads are placed and whichever of
      their fetches and file steps fail. */
  lemma LazyReadsAreTrueAfterEveryRun(cfg: Config, c: Cache, ops: seq<Op>, env: Env, desc: Descriptor,
                                      calls: seq<Lazy.Read>, blob: Blob)
    requires SlotTrue(desc.digest, At(c, desc.digest), blob) && NeverStrands(cfg, c, ops, desc.digest, blob)
    requires desc.Valid() && |blob| == desc.size && cfg.hash(blob) == desc.digest
    requires forall r <- calls :: HonestRanges(r.env, blob) && 0 < r.len
    ensures var (f, opening) := Lazy.OpenLazy(cfg, env, desc, At(After(cfg, c, ops), desc.digest).files);
      opening.LazyOpened? ==>
        var run := Lazy.RunReads(cfg, f, opening.handle, calls);
        forall i :: 0 <= i < |calls| && run.results[i].ReadOk? ==>
          run.results[i] == Lazy.FileReadAt(Some(blob), calls[i].off, calls[i].len)
  {
    RecordedBytesStayReal(cfg, c, ops, desc.digest, blob);
    var s := At(After(cfg, c, ops), desc.digest);
    LazyOpenTruth(cfg, env, desc, s.files, blob);
    var (f, opening) := Lazy.OpenLazy(cfg, env, desc, s.files);
    if opening.LazyOpened? {
      Lazy.LazyRefinesPlain(cfg, f, opening.handle, calls, blob);
    }
  }

  /** The entries a prune loads from a reachable cache, each digest once, are what
      its selection asks for. */
  lemma {:induction false} ReachableEntriesLoadable(cfg: Config, c: Cache, sizes: Digest -> int, es: seq<Entry>)
    requires Sound(cfg, c, sizes)
    requires forall e <- es :: At(c, e.digest).files.entry == Some(e) && 0 <= sizes(e.digest)
    requires forall i, j | 0 <= i < j < |es| :: es[i].digest != es[j].digest
    ensures Prune.Loadable(es)
  {
    if es != [] {
      var front, last := es[..|es| - 1], es[|es| - 1];
      ReachableEntriesLoadable(cfg, c, sizes, front);
      assert es == front + [last];
      assert last !in front;
      assert last in es;
      forall e <- es
        ensures multiset(es)[e] == 1 && 0 <= e.size
      {
        assert multiset(es)[e] == multiset(front)[e] + multiset([last])[e];
        assert SlotSound(cfg, Descriptor(e.digest, sizes(e.digest)), At(c, e.digest));
      }
    }
  }

  /** The shortcut past the registry is taken in a reachable cache exactly when Open
      would hit, and Open would then return the blob, verified on read or not. */
  lemma ShortcutIsRightAfterEveryRun(cfg: Config, c: Cache, ops: seq<Op>, sizes: Digest -> int,
                                     env: Env, desc: Descriptor, blob: Blob)
    requires Sound(cfg, c, sizes) && forall op <- ops :: Consistent(op, sizes)
    requires desc.size == sizes(desc.digest) && Names(cfg, desc, blob)
    ensures var f := At(After(cfg, c, ops), desc.digest).files;
      && (HasCachedBlob(env, f) <==> HitFile(cfg, env, f).Some?)
      && (HasCachedBlob(env, f) ==> Open(cfg, env, desc, f).1 == Some(FileHandle(blob, desc.size, true)))
  {
    RunsStaySound(cfg, c, ops, sizes);
    HitsAreTheBlob(cfg, c, ops, sizes, env, desc, blob);
    var s := At(After(cfg, c, ops), desc.digest);
    assert SlotSound(cfg, Descriptor(desc.digest, sizes(desc.digest)), s);
  }

  /** After every run, an Open with working steps and a registry that delivers makes the
      blob stand; from then on all opens deliver it, whatever the registry answers. */
  lemma OpenedOnceServesOffline(cfg: Config, c: Cache, ops: seq<Op>, sizes: Digest -> int,
                                env: Env, env2: Env, source: Stream.Source, desc: Descriptor, blob: Blob)
    requires Sound(cfg, c, sizes) && forall op <- ops :: Consistent(op, sizes)
    requires desc.size == sizes(desc.digest) && Names(cfg, desc, blob)
    requires FilesOk(env) && env.blob == BlobBody(blob, false)
    requires env2.ok(ReadEntry) && env2.ok(OpenBlob)
    ensures var f := Open(cfg, env, desc, At(After(cfg, c, ops), desc.digest).files).0;
      && Stands(cfg, f)
      && Open(cfg, env2, desc, f).1 == Some(FileHandle(blob, desc.size, true))
      && OpenStream(cfg, env2, desc, f).1 == Some(blob)
      && Stream.OpenStreamThrough(cfg, env2, desc, source, f).1 == Stream.StreamHit(blob)
      && (!cfg.verifyOnRead ==>
            Lazy.OpenLazy(cfg, env2, desc, f).1 == Lazy.LazyHit(FileHandle(blob, desc.size, true)))
  {
    OpenDeliversAfterEveryRun(cfg, c, ops, sizes, env, desc, blob);
    RunsStaySound(cfg, c, ops, sizes);
    var s := At(After(cfg, c, ops), desc.digest);
    assert SlotSound(cfg, Descriptor(desc.digest, sizes(desc.digest)), s);
    OpenMakesStand(cfg, env, desc, s.files, blob);
    var f := Open(cfg, env, desc, s.files).0;
    HitsNeedNoRegistry(cfg, env2, desc, f);
    Stream.StreamStarts(cfg, env2, desc, source, f);
    if !cfg.verifyOnRead {
      Lazy.LazyHitNeedsNoRegistry(cfg, env2, desc, f);
    }
  }

  lemma OpenMakesStand(cfg: Config, env: Env, desc: Descriptor, f: Files, blob: Blob)
    requires Names(cfg, desc, blob) && WellFormed(desc, f) && Describes(f.entry, desc)
    requires FilesOk(env) && env.blob == BlobBody(blob, false)
    requires Intact(cfg, desc.digest, f)
    ensures var f1 := Open(cfg, env, desc, f).0;
      f1.blob == Some(blob) && Stands(cfg, f1)
  {
    OnlyWhatStandsIsHit(cfg, env, f);
    if !Stands(cfg, f) {
      DownloadDelivers(cfg, env, desc, Healed(env, f), blob);
    }
  }

  predicate OpensBlob(cfg: Config, op: SlotOp) {
    op.DoOpen? || op.DoOpenStream? || op.DoStreamThrough? || (op.DoOpenLazy? && !cfg.verifyOnRead)
  }

  lemma HitsAreTouched(cfg: Config, env: Env, op: SlotOp, d: Digest, s: Slot)
    requires Allowed(d, op, s) && OpensBlob(cfg, op) && Stands(cfg, s.files)
    requires env.ok(ReadEntry) && env.ok(OpenBlob) && env.ok(TouchEntry)
    ensures SlotStep(cfg, env, op, s) ==
      s.(files := s.files.(entry := Some(s.files.entry.value.(lastAccessed := env.now))))
  {
  }

  /** Any open that hits protects the blob: a prune within `maxAge` of it leaves the
      digest alone if there is no size limit, or if the entry is among some choice of
      recent entries that fits the limit. */
  lemma HitsSurvivePrune(cfg: Config, c: Cache, d: Digest, env: Env, op: SlotOp, prune: Op, choice: seq<Entry>)
    requires Enabled(On(d, env, op), c) && OpensBlob(cfg, op)
    requires Stands(cfg, At(c, d).files) && At(c, d).files.entry.value.digest == d
    requires env.ok(ReadEntry) && env.ok(OpenBlob) && env.ok(TouchEntry)
    requires prune.DoPrune? && Enabled(prune, Step(cfg, On(d, env, op), c))
    requires prune.now <= env.now + prune.opts.maxAge
    requires prune.opts.maxSize <= 0
      || (Prune.RecentAndFitting(prune.entries, prune.opts, prune.now, choice)
          && At(c, d).files.entry.value.(lastAccessed := env.now) in choice)
    ensures var after := Step(cfg, On(d, env, op), c);
      && At(Step(cfg, prune, after), d) == At(after, d)
      && At(after, d).files.blob == At(c, d).files.blob
  {
    var after := Step(cfg, On(d, env, op), c);
    StepAt(cfg, On(d, env, op), c, d);
    HitsAreTouched(cfg, env, op, d, At(c, d));
    StepAt(cfg, prune, after, d);
    var e := At(after, d).files.entry.value;
    if e in prune.entries {
      Prune.ChosenIsSafe(prune.entries, prune.opts, prune.now, prune.toRemove, choice, e);
    }
  }

  lemma LazySessionSucceeds(cfg: Config, env: Env, desc: Descriptor, f: Files, calls: seq<Lazy.Read>, blob: Blob)
    requires Truthful(f, blob) && desc.Valid() && |blob| == desc.size
    requires !cfg.verifyOnRead && FilesOk(env)
    requires forall r <- calls :: AnswersRanges(r.env, blob) && FilesOk(r.env) && 0 <= r.off && 0 < r.len
    ensures var (f1, opening) := Lazy.OpenLazy(cfg, env, desc, f);
      && opening != Lazy.LazyFailed
      && (opening.LazyOpened? ==>
            var run := Lazy.RunReads(cfg, f1, opening.handle, calls);
            forall i :: 0 <= i < |calls| ==>
              Lazy.IsPlainRead(run.results[i], blob, calls[i].off, calls[i].len))
  {
    LazyOpenTruth(cfg, env, desc, f, blob);
    Lazy.LazyOpenSucceedsIff(cfg, env, desc, f);
    var (f1, opening) := Lazy.OpenLazy(cfg, env, desc, f);
    if opening.LazyOpened? {
      Lazy.AllReadsSucceed(cfg, f1, opening.handle, calls, blob);
    }
  }

  /** After every run that strands none of the blob's progress, while the registry answers
      and the file steps work, a lazy open succeeds, and so does every read of its handle,
      which reads the blob. */
  lemma LazyReadsSucceedAfterEveryRun(cfg: Config, c: Cache, ops: seq<Op>, env: Env, desc: Descriptor,
                                      calls: seq<Lazy.Read>, blob: Blob)
    requires SlotTrue(desc.digest, At(c, desc.digest), blob) && NeverStrands(cfg, c, ops, desc.digest, blob)
    requires desc.Valid() && |blob| == desc.size && cfg.hash(blob) == desc.digest
    requires !cfg.verifyOnRead && FilesOk(env)
    requires forall r <- calls :: AnswersRanges(r.env, blob) && FilesOk(r.env) && 0 <= r.off && 0 < r.len
    ensures var (f, opening) := Lazy.OpenLazy(cfg, env, desc, At(After(cfg, c, ops), desc.digest).files);
      && opening != Lazy.LazyFailed
      && (opening.LazyOpened? ==>
            var run := Lazy.RunReads(cfg, f, opening.handle, calls);
            forall i :: 0 <= i < |calls| ==>
              Lazy.IsPlainRead(run.results[i], blob, calls[i].off, calls[i].len))
  {
    RecordedBytesStayReal(cfg, c, ops, desc.digest, blob);
    LazySessionSucceeds(cfg, env, desc, At(After(cfg, c, ops), desc.digest).files, calls, blob);
  }

  // ---------- fetches are conserved ----------

  /** After every run, whatever the registry answered in it and answers now, the bytes
      that an open lazy handle fetches are the growth of its coverage, within the size. */
  lemma LazyFetchesAreConservedAfterEveryRun(cfg: Config, c: Cache, ops: seq<Op>, sizes: Digest -> int,
                                             d: Digest, calls: seq<Lazy.Read>)
    requires Sound(cfg, c, sizes) && forall op <- ops :: Consistent(op, sizes)
    ensures var s := At(After(cfg, c, ops), d);
      s.session.LazySession? ==>
        var h := s.session.handle;
        var run := Lazy.RunReads(cfg, s.files, h, calls);
        && Lazy.Coverage(h) <= Lazy.Coverage(run.handle)
        && run.fetched == |Lazy.Coverage(run.handle)| - |Lazy.Coverage(h)| <= h.desc.size == sizes(d)
  {
    RunsStaySound(cfg, c, ops, sizes);
    var s := At(After(cfg, c, ops), d);
    assert SlotSound(cfg, Descriptor(d, sizes(d)), s);
    if s.session.LazySession? {
      Lazy.FetchesAreCoverageGrowth(cfg, s.files, s.session.handle, calls);
    }
  }

  /** After every run, whatever the registry answered in it and answers now, a read
      alters no byte that the handle's file has recorded. */
  lemma ReadsKeepRecordedBytesAfterEveryRun(cfg: Config, c: Cache, ops: seq<Op>, sizes: Digest -> int,
                                            d: Digest, env: Env, off: int, len: int)
    requires Sound(cfg, c, sizes) && forall op <- ops :: Consistent(op, sizes)
    ensures var s := At(After(cfg, c, ops), d);
      s.session.LazySession? && !s.session.handle.entry.complete ==>
        var h := s.session.handle;
        var o := Lazy.ReadAt(cfg, env, s.files, h, off, len);
        s.files.partial.Some? && (Lazy.Content(o.files, o.handle).Some? ==>
          var content := Lazy.Content(o.files, o.handle).value;
          forall b :: b in Bytes(h.entry.ranges) ==>
            0 <= b < |content| && b < |s.files.partial.value| && content[b] == s.files.partial.value[b])
  {
    RunsStaySound(cfg, c, ops, sizes);
    var s := At(After(cfg, c, ops), d);
    assert SlotSound(cfg, Descriptor(d, sizes(d)), s);
    if s.session.LazySession? && !s.session.handle.entry.complete {
      Lazy.ReadKeepsRecordedBytes(cfg, env, s.files, s.session.handle, off, len);
    }
  }

  /** After every run, a resume that gets all its gaps fetches exactly the size minus
      the bytes that were recorded. */
  lemma ResumesAreConservedAfterEveryRun(cfg: Config, c: Cache, ops: seq<Op>, sizes: Digest -> int,
                                         env: Env, desc: Descriptor)
    requires Sound(cfg, c, sizes) && forall op <- ops :: Consistent(op, sizes)
    requires desc.size == sizes(desc.digest) && desc.Valid()
    ensures var f := At(After(cfg, c, ops), desc.digest).files;
      HasProgress(f) && f.partial.Some? ==>
        var p := FetchGaps(env, f.partial.value, f.entry.value.ranges, ResumeGaps(f.entry.value, desc));
        p.end == Fetched ==> p.fetched == desc.size - |Bytes(f.entry.value.ranges)|
  {
    RunsStaySound(cfg, c, ops, sizes);
    var f := At(After(cfg, c, ops), desc.digest).files;
    assert SlotSound(cfg, Descriptor(desc.digest, sizes(desc.digest)), At(After(cfg, c, ops), desc.digest));
    if HasProgress(f) && f.partial.Some? {
      ResumeConserves(env, desc, f.partial.value, f.entry.value);
    }
  }
}
