/** Recorded bytes are real: what the stored entry of an unfinished blob lists in
    its ranges is in the partial file.

    The code keeps this except where it removes or renames the partial file and
    then does not replace the entry.  For every operation the lemmas below say
    exactly when that happens. */
module Truth {
  import opened Ranges
  import opened Disk
  import opened Download
  import Lazy
  import Stream

  ghost predicate Truthful(f: Files, blob: Blob) {
    f.entry.Some? ==>
      var e := f.entry.value;
      && (e.complete ==> e.verified)
      && (!e.complete ==>
          && Recordable(e.ranges) && Within(Bytes(e.ranges), |blob|)
          && (e.ranges != [] ==>
              f.partial.Some? && |f.partial.value| <= |blob| && Agrees(f.partial.value, blob, Bytes(e.ranges))))
  }

  predicate HasProgress(f: Files) {
    f.entry.Some? && !f.entry.value.complete && f.entry.value.ranges != []
  }

  /** Progress without its partial file is never truthful. */
  lemma StrandedIsUntrue(f: Files, blob: Blob)
    requires HasProgress(f) && f.partial.None?
    ensures !Truthful(f, blob)
  {
  }

  // ---------- downloads ----------

  lemma FullAgreement(file: Blob, blob: Blob, s: set<int>)
    requires Agrees(file, blob, s) && s == Span(0, |blob|) && |file| <= |blob|
    ensures file == blob
  {
    assert |blob| > 0 ==> |blob| - 1 in s;
    assert forall i :: 0 <= i < |blob| ==> i in s;
  }

  /** The gap loop of a resume that starts from true progress. */
  lemma ResumeFetches(env: Env, desc: Descriptor, f: Files, blob: Blob)
    requires Truthful(f, blob) && HasProgress(f) && HonestRanges(env, blob)
    requires desc.Valid() && |blob| == desc.size
    ensures var p := FetchGaps(env, f.partial.value, f.entry.value.ranges, ResumeGaps(f.entry.value, desc));
      && |p.file| <= |blob|
      && Agrees(p.file, blob, Bytes(p.ranges)) && Agrees(p.file, blob, Bytes(f.entry.value.ranges))
      && Recordable(p.ranges) && Within(Bytes(p.ranges), |blob|)
      && (p.end == Fetched ==> p.file == blob)
  {
    var e := f.entry.value;
    var gaps := ResumeGaps(e, desc);
    var p := FetchGaps(env, f.partial.value, e.ranges, gaps);
    GapsOfEntry(e, desc);
    FetchAgrees(env, f.partial.value, e.ranges, gaps, blob, Bytes(e.ranges));
    FetchLength(env, f.partial.value, e.ranges, gaps, |blob|);
    FetchCoverage(env, f.partial.value, e.ranges, gaps);
    if p.ranges != e.ranges {
      CanonicalInside(p.ranges, |blob|);
    }
    if p.end == Fetched {
      assert Bytes(p.ranges) == Span(0, |blob|);
      FullAgreement(p.file, blob, Bytes(p.ranges));
    }
  }

  /** A resume that gets every gap and is not stopped by a file step. */
  ghost predicate ResumeFinishes(env: Env, desc: Descriptor, f: Files)
    requires HasProgress(f) && f.partial.Some?
  {
    && env.ok(RereadEntry) && env.ok(OpenPartial) && ResumeGaps(f.entry.value, desc) != []
    && FetchGaps(env, f.partial.value, f.entry.value.ranges, ResumeGaps(f.entry.value, desc)).end == Fetched
    && env.ok(SyncPartial) && env.ok(HashPartial) && env.ok(RenamePartial)
  }

  /** The partial file goes to the final path, or is dropped before a full download,
      and no new entry replaces the recorded progress. */
  ghost predicate DownloadStrands(cfg: Config, env: Env, desc: Descriptor, f: Files)
    requires HasProgress(f) ==> f.partial.Some?
  {
    && HasProgress(f)
    && if ResumeFinishes(env, desc, f) then !env.ok(SaveEntry)
       else env.ok(DropPartial) && !(Delivered(cfg, env, desc) && env.ok(SaveEntry))
  }

  lemma FullDownloadTruth(cfg: Config, env: Env, desc: Descriptor, f: Files, blob: Blob)
    requires Truthful(f, blob)
    ensures Truthful(FullDownload(cfg, env, desc, f).0, blob) <==>
      !(HasProgress(f) && env.ok(DropPartial) && !(Delivered(cfg, env, desc) && env.ok(SaveEntry)))
  {
  }

  lemma ResumeTruth(cfg: Config, env: Env, desc: Descriptor, f: Files, blob: Blob)
    requires Truthful(f, blob) && HasProgress(f) && HonestRanges(env, blob)
    requires desc.Valid() && |blob| == desc.size && cfg.hash(blob) == desc.digest
    requires env.ok(RereadEntry)
    ensures var (f1, resumed) := Resume(cfg, env, desc, f, f.entry.value);
      && (resumed <==> ResumeFinishes(env, desc, f))
      && (resumed ==> (Truthful(f1, blob) <==> env.ok(SaveEntry)))
      && (!resumed ==> Truthful(f1, blob) && HasProgress(f1))
  {
    ResumeFetches(env, desc, f, blob);
    FetchKeepsProgress(env, f.partial.value, f.entry.value.ranges, ResumeGaps(f.entry.value, desc));
  }

  lemma {:induction false} FetchKeepsProgress(env: Env, file: Blob, ranges: seq<Range>, gaps: seq<Range>)
    requires ranges != [] && Recordable(ranges)
    ensures FetchGaps(env, file, ranges, gaps).ranges != []
  {
    assert Last(ranges) in ranges && Last(ranges).offset in Bytes(ranges);
    FetchKeepsBytes(env, file, ranges, gaps);
  }

  lemma {:induction false} FetchKeepsBytes(env: Env, file: Blob, ranges: seq<Range>, gaps: seq<Range>)
    ensures Bytes(ranges) <= Bytes(FetchGaps(env, file, ranges, gaps).ranges)
    decreases |gaps|
  {
    if gaps != [] {
      var one := FetchOne(env, file, ranges, gaps[0]);
      FetchKeepsBytes(env, one.file, one.ranges, gaps[1..]);
    }
  }

  lemma DownloadTruth(cfg: Config, env: Env, desc: Descriptor, f: Files, blob: Blob)
    requires Truthful(f, blob) && HonestRanges(env, blob)
    requires desc.Valid() && |blob| == desc.size && cfg.hash(blob) == desc.digest
    ensures Truthful(DownloadBlob(cfg, env, desc, f).0, blob) <==> !DownloadStrands(cfg, env, desc, f)
  {
    if env.ok(RereadEntry) && HasProgress(f) {
      ResumeTruth(cfg, env, desc, f, blob);
      var (f1, resumed) := Resume(cfg, env, desc, f, f.entry.value);
      if !resumed {
        FullDownloadTruth(cfg, env, desc, f1, blob);
      }
    } else {
      FullDownloadTruth(cfg, env, desc, f, blob);
    }
  }

  /** Open, OpenStream and Prefetch lose the truth of recorded bytes exactly when
      their download strands them: a hit or a healed entry records nothing. */
  lemma OpenTruth(cfg: Config, env: Env, desc: Descriptor, f: Files, blob: Blob)
    requires Truthful(f, blob) && HonestRanges(env, blob)
    requires desc.Valid() && |blob| == desc.size && cfg.hash(blob) == desc.digest
    ensures Truthful(Open(cfg, env, desc, f).0, blob) <==> !DownloadStrands(cfg, env, desc, f)
    ensures Truthful(OpenStream(cfg, env, desc, f).0, blob) <==> !DownloadStrands(cfg, env, desc, f)
    ensures Truthful(Prefetch(cfg, env, desc, f), blob) <==> !DownloadStrands(cfg, env, desc, f)
  {
    DownloadTruth(cfg, env, desc, f, blob);
    DownloadTruth(cfg, env, desc, Healed(env, f), blob);
  }

  // ---------- any registry ----------

  /** Recorded progress has its partial file, whatever the file holds. */
  predicate Backed(f: Files) {
    HasProgress(f) ==> f.partial.Some?
  }

  /** The gap loop of a resume gets everything, and the whole file is read back. */
  ghost predicate ResumeFills(env: Env, desc: Descriptor, f: Files)
    requires HasProgress(f) && f.partial.Some?
  {
    && env.ok(RereadEntry) && env.ok(OpenPartial) && ResumeGaps(f.entry.value, desc) != []
    && FetchGaps(env, f.partial.value, f.entry.value.ranges, ResumeGaps(f.entry.value, desc)).end == Fetched
    && env.ok(SyncPartial) && env.ok(HashPartial)
  }

  /** For any registry: the partial file of recorded progress goes and the entry stays.
      A filled file that hashes right is renamed, one that hashes wrong is removed with
      its entry; everything else comes to a full download, which drops the file first. */
  ghost predicate DownloadUnbacks(cfg: Config, env: Env, desc: Descriptor, f: Files)
    requires Backed(f)
  {
    var replaced := Delivered(cfg, env, desc) && env.ok(SaveEntry);
    && HasProgress(f)
    && if !ResumeFills(env, desc, f) then env.ok(DropPartial) && !replaced
       else
         var p := FetchGaps(env, f.partial.value, f.entry.value.ranges, ResumeGaps(f.entry.value, desc));
         if cfg.hash(p.file) != desc.digest then
           !env.ok(DropBadEntry) && (env.ok(DropBadPartial) || env.ok(DropPartial)) && !replaced
         else if env.ok(RenamePartial) then !env.ok(SaveEntry)
         else env.ok(DropPartial) && !replaced
  }

  lemma FullDownloadBacked(cfg: Config, env: Env, desc: Descriptor, f: Files)
    ensures Backed(FullDownload(cfg, env, desc, f).0) <==>
      !HasProgress(f) || (f.partial.Some? && !env.ok(DropPartial)) || (Delivered(cfg, env, desc) && env.ok(SaveEntry))
  {
  }

  lemma ResumeBacked(cfg: Config, env: Env, desc: Descriptor, f: Files)
    requires HasProgress(f) && f.partial.Some? && Usable(f) && env.ok(RereadEntry)
    ensures var e := f.entry.value;
      var p := FetchGaps(env, f.partial.value, e.ranges, ResumeGaps(e, desc));
      var (f1, resumed) := Resume(cfg, env, desc, f, e);
      var fills := ResumeFills(env, desc, f);
      var right := cfg.hash(p.file) == desc.digest;
      && (resumed <==> fills && right && env.ok(RenamePartial))
      && (resumed ==> f1.partial == None && (HasProgress(f1) <==> !env.ok(SaveEntry)))
      && (!resumed ==>
            && (HasProgress(f1) <==> !(fills && !right && env.ok(DropBadEntry)))
            && (f1.partial.Some? <==> !(fills && !right && env.ok(DropBadPartial))))
  {
    FetchKeepsProgress(env, f.partial.value, f.entry.value.ranges, ResumeGaps(f.entry.value, desc));
  }

  /** Whatever the registry answers, a download leaves recorded progress without its file
      exactly in the cases named above. */
  lemma DownloadBacked(cfg: Config, env: Env, desc: Descriptor, f: Files)
    requires Usable(f) && Backed(f)
    ensures Backed(DownloadBlob(cfg, env, desc, f).0) <==> !DownloadUnbacks(cfg, env, desc, f)
  {
    if env.ok(RereadEntry) && HasProgress(f) {
      var (f1, resumed) := Resume(cfg, env, desc, f, f.entry.value);
      ResumeBacked(cfg, env, desc, f);
      if !resumed {
        FullDownloadBacked(cfg, env, desc, f1);
      }
    } else {
      FullDownloadBacked(cfg, env, desc, f);
    }
  }

  lemma OpenBacked(cfg: Config, env: Env, desc: Descriptor, f: Files)
    requires Usable(f) && Backed(f)
    ensures Backed(Open(cfg, env, desc, f).0) <==> !DownloadUnbacks(cfg, env, desc, f)
    ensures Backed(OpenStream(cfg, env, desc, f).0) <==> !DownloadUnbacks(cfg, env, desc, f)
    ensures Backed(Prefetch(cfg, env, desc, f)) <==> !DownloadUnbacks(cfg, env, desc, f)
  {
    DownloadBacked(cfg, env, desc, f);
    DownloadBacked(cfg, env, desc, Healed(env, f));
  }

  /** A registry whose answers fill the gaps with a wrong whole leaves no progress behind,
      and no blob but the old one or the one it delivers afterwards. */
  lemma WrongWholeLeavesNoProgress(cfg: Config, env: Env, desc: Descriptor, f: Files)
    requires Usable(f) && HasProgress(f) && f.partial.Some? && ResumeFills(env, desc, f)
    requires env.ok(DropBadPartial) && env.ok(DropBadEntry)
    requires var p := FetchGaps(env, f.partial.value, f.entry.value.ranges, ResumeGaps(f.entry.value, desc));
      cfg.hash(p.file) != desc.digest
    ensures var f1 := DownloadBlob(cfg, env, desc, f).0;
      && f1 == Open(cfg, env, desc, f).0 == OpenStream(cfg, env, desc, f).0 == Prefetch(cfg, env, desc, f)
      && !HasProgress(f1) && f1.partial == None
      && f1.blob == (if Delivered(cfg, env, desc) then Some(env.blob.data) else f.blob)
      && (!Delivered(cfg, env, desc) ==> f1.entry == None)
  {
    WrongWholeIsDropped(cfg, env, desc, f);
  }

  // ---------- eviction and stream-through ----------

  predicate EvictStrands(env: Env, f: Files) {
    HasProgress(f) && (f.blob.Some? ==> env.ok(EvictBlob)) && env.ok(EvictPartial) && !env.ok(EvictEntry)
  }

  lemma EvictTruth(env: Env, f: Files, blob: Blob)
    requires Truthful(f, blob)
    ensures Truthful(Evict(env, f).0, blob) <==> !EvictStrands(env, f)
  {
  }

  predicate StreamStrands(env: Env, f: Files) {
    HasProgress(f) && env.ok(DropPartial) && !env.ok(DropStaleEntry)
  }

  lemma StreamOpenTruth(cfg: Config, env: Env, desc: Descriptor, source: Stream.Source, f: Files, blob: Blob)
    requires Truthful(f, blob)
    ensures Truthful(Stream.OpenStreamThrough(cfg, env, desc, source, f).0, blob) <==> !StreamStrands(env, f)
  {
  }

  /** Reading and closing a stream touch no recorded byte. */
  lemma StreamTruth(cfg: Config, env: Env, f: Files, r: Stream.Reader, n: nat, blob: Blob)
    requires Truthful(f, blob) && r.pos <= |r.source.data|
    ensures Truthful(Stream.Read(env.ok(WriteTmp), f, r, n).0, blob)
    ensures Truthful(Stream.Close(cfg, env, f, r), blob)
  {
  }

  // ---------- lazy handles ----------

  lemma TruncateAgrees(content: Blob, size: nat, blob: Blob, s: set<int>)
    requires Agrees(content, blob, s) && |blob| == size
    ensures Agrees(Truncate(content, size), blob, s)
  {
  }

  /** Opening lazily always keeps the truth, and the handle starts faithful. */
  lemma LazyOpenTruth(cfg: Config, env: Env, desc: Descriptor, f: Files, blob: Blob)
    requires Truthful(f, blob) && desc.Valid() && |blob| == desc.size
    ensures var (f1, opening) := Lazy.OpenLazy(cfg, env, desc, f);
      && Truthful(f1, blob)
      && (opening.LazyOpened? ==>
            Lazy.Faithful(f1, opening.handle, blob) && opening.handle.desc == desc && !opening.handle.closed)
  {
    var g := Healed(env, f);
    if HitFile(cfg, env, f).None? && HasProgress(g) {
      TruncateAgrees(g.partial.value, desc.size, blob, Bytes(g.entry.value.ranges));
    }
    assert Bytes([]) == {};
  }

  /** The read that fills the last gap and renames the partial file. */
  ghost predicate ReadPublishes(cfg: Config, env: Env, f: Files, h: Lazy.Handle, off: int, len: int)
    requires f.partial.Some?
  {
    var p := Lazy.GapFetch(env, f, h, off, len);
    && 0 < len && !h.closed && !h.entry.complete && Lazy.Missing(h, off, len) != []
    && p.end == Fetched && Bytes(p.ranges) == Span(0, h.desc.size)
    && env.ok(SyncPartial) && env.ok(HashPartial) && env.ok(RenamePartial)
  }

  ghost predicate ReadStrands(cfg: Config, env: Env, f: Files, h: Lazy.Handle, off: int, len: int) {
    HasProgress(f) && f.partial.Some? && ReadPublishes(cfg, env, f, h, off, len) && !env.ok(SaveProgress)
  }

  /** A read keeps the truth of the stored entry unless it publishes the blob and
      the entry is not saved. */
  lemma ReadTruth(cfg: Config, env: Env, f: Files, h: Lazy.Handle, off: int, len: int, blob: Blob)
    requires Truthful(f, blob) && Lazy.Faithful(f, h, blob) && HonestRanges(env, blob)
    requires cfg.hash(blob) == h.desc.digest
    ensures Truthful(Lazy.ReadAt(cfg, env, f, h, off, len).files, blob) <==> !ReadStrands(cfg, env, f, h, off, len)
  {
    if 0 < len && !h.closed && !h.entry.complete && Lazy.Missing(h, off, len) != [] {
      var gaps := Lazy.Missing(h, off, len);
      var p := Lazy.GapFetch(env, f, h, off, len);
      Lazy.MissingIsInside(f, h, off, len);
      Lazy.GapShape(env, f, h, off, len);
      Lazy.GapFaithful(env, f, h, off, len, blob);
      var s := if HasProgress(f) then Bytes(f.entry.value.ranges) else {};
      FetchAgrees(env, f.partial.value, h.entry.ranges, gaps, blob, s);
      Lazy.MissingOnlyWhenUncovered(h, off, len);
      SettleTruth(cfg, env, f, h, p, blob);
    }
  }

  lemma SettleTruth(cfg: Config, env: Env, f: Files, h: Lazy.Handle, p: Progress, blob: Blob)
    requires Truthful(f, blob) && Lazy.Faithful(f, h, blob) && !h.entry.complete
    requires cfg.hash(blob) == h.desc.digest
    requires |p.file| == |blob| && Recordable(p.ranges) && Within(Bytes(p.ranges), |blob|)
    requires Agrees(p.file, blob, Bytes(p.ranges))
    requires HasProgress(f) ==> Agrees(p.file, blob, Bytes(f.entry.value.ranges))
    ensures Truthful(Lazy.Settle(cfg, env, f, h, p).0, blob) <==>
      !(HasProgress(f) && p.end == Fetched && Bytes(p.ranges) == Span(0, |blob|)
        && env.ok(SyncPartial) && env.ok(HashPartial) && env.ok(RenamePartial) && !env.ok(SaveProgress))
  {
    if Bytes(p.ranges) == Span(0, |blob|) {
      assert p.file == blob by {
        assert forall i :: 0 <= i < |blob| ==> i in Bytes(p.ranges);
      }
    }
  }

  lemma LazyCloseTruth(env: Env, f: Files, h: Lazy.Handle, blob: Blob)
    requires Truthful(f, blob) && Lazy.Faithful(f, h, blob)
    ensures Truthful(Lazy.Close(env, f, h).0, blob)
  {
  }

  /** What a stranded state does: the next lazy handle takes the recorded bytes as
      fetched, and reads zeros, whatever the blob has there. */
  lemma StrandedProgressReadsZeros(cfg: Config, env: Env, env2: Env, desc: Descriptor, f: Files, b: int)
    requires !cfg.verifyOnRead && FilesOk(env) && desc.Valid()
    requires HasProgress(f) && f.partial.None?
    requires b in Bytes(f.entry.value.ranges) && 0 <= b < desc.size
    ensures var (f1, opening) := Lazy.OpenLazy(cfg, env, desc, f);
      && opening.LazyOpened?
      && Lazy.ReadAt(cfg, env2, f1, opening.handle, b, 1).result == Lazy.ReadOk([0], false)
  {
    var zeros := Truncate([], desc.size);
    assert Span(b, b + 1) <= Bytes(f.entry.value.ranges);
    assert zeros[b..b + 1] == [0];
  }
}
