/** Lazy handles: bytes are fetched as they are read (internal/cache/lazy_handle.go
    and OpenLazy in internal/cache/cache.go). */
module Lazy {
  import opened Ranges
  import opened Disk
  import opened Download

  /** The file a lazy handle reads: the partial file, the published blob after the
      last gap is filled, or a file that was closed for a rename and not reopened. */
  datatype HandleFile = OnPartial | OnBlob(content: Blob) | Unusable

  datatype Handle = Handle(desc: Descriptor, entry: Entry, file: HandleFile, closed: bool)

  datatype ReadResult = ReadFailed | ReadOk(data: Blob, eof: bool)

  datatype LazyOpen = LazyFailed | LazyHit(file: FileHandle) | LazyOpened(handle: Handle)

  ghost function OpenLazy(cfg: Config, env: Env, desc: Descriptor, f: Files): (Files, LazyOpen) {
    if cfg.verifyOnRead then (f, LazyFailed)
    else if HitFile(cfg, env, f).Some? then (Touched(env, f), LazyHit(HitFile(cfg, env, f).value))
    else OpenLazyHandle(cfg, env, desc, Healed(env, f))
  }

  function NewEntry(desc: Descriptor, now: int): Entry {
    Entry(desc.digest, desc.size, false, false, [], now)
  }

  ghost function OpenLazyHandle(cfg: Config, env: Env, desc: Descriptor, f: Files): (Files, LazyOpen) {
    var found := if env.ok(RereadEntry) then f.entry else None;
    if found.Some? && found.value.Done() then
      var hit := OpenCached(cfg, env.ok(OpenNewBlob), f, found.value);
      (f, if hit.Some? then LazyHit(hit.value) else LazyFailed)
    else if !env.ok(OpenPartial) then (f, LazyFailed)
    else
      var content := if f.partial.Some? then f.partial.value else [];
      var f1 := f.(partial := Some(content));
      var e := if found.Some? then found.value else NewEntry(desc, env.now);
      var e1 := if |content| > desc.size then e.(ranges := []) else e;
      if !env.ok(StatPartial) || (|content| != desc.size && !env.ok(TruncatePartial)) then (f1, LazyFailed)
      else
        var f2 := f1.(partial := Some(if desc.size < 0 then content else Truncate(content, desc.size)));
        (Save(env.ok(SaveProgress), f2, e1, env.now), LazyOpened(Handle(desc, e1, OnPartial, false)))
  }

  function Content(f: Files, h: Handle): Option<Blob> {
    match h.file
    case OnPartial => f.partial
    case OnBlob(content) => Some(content)
    case Unusable => None
  }

  /** os.File.ReadAt: short at the end of the file, and then with EOF. */
  function FileReadAt(content: Option<Blob>, off: int, len: int): ReadResult {
    if content.None? || off < 0 || len < 0 then ReadFailed
    else
      var c := content.value;
      var start, end := Min(off, |c|), Min(off + len, |c|);
      ReadOk(c[start..end], off + len > |c|)
  }

  /** The part of the window that the blob has. */
  ghost function Wanted(desc: Descriptor, off: int, len: int): set<int> {
    Span(Max2(off, 0), Min(off + len, desc.size))
  }

  ghost function Missing(h: Handle, off: int, len: int): seq<Range> {
    Runs(Wanted(h.desc, off, len) - Bytes(h.entry.ranges))
  }

  /** The file is published before anything is known about its entry. */
  ghost function VerifyAndComplete(cfg: Config, env: Env, f: Files, h: Handle): (Files, Handle)
    requires f.partial.Some?
  {
    if !env.ok(SyncPartial) || !env.ok(HashPartial) || cfg.hash(f.partial.value) != h.desc.digest then (f, h)
    else
      var h1 := h.(entry := h.entry.(complete := true, verified := true, ranges := []), file := Unusable);
      if !env.ok(RenamePartial) then (f, h1)
      else
        var f1 := f.(blob := f.partial, partial := None);
        (f1, if env.ok(ReopenBlob) then h1.(file := OnBlob(f.partial.value)) else h1)
  }

  /** The progress of a gap loop is recorded, the blob is published if nothing is
      missing any more, and the entry is saved. */
  ghost function Settle(cfg: Config, env: Env, f: Files, h: Handle, p: Progress): (Files, Handle) {
    var f1 := f.(partial := Some(p.file));
    var h1 := h.(entry := h.entry.(ranges := p.ranges));
    var (f2, h2) :=
      if p.end == Fetched && Bytes(p.ranges) == Span(0, h.desc.size) then VerifyAndComplete(cfg, env, f1, h1)
      else (f1, h1);
    (Save(env.ok(SaveProgress), f2, h2.entry, env.now), h2)
  }

  ghost function GapFetch(env: Env, f: Files, h: Handle, off: int, len: int): Progress
    requires f.partial.Some?
  {
    FetchGaps(env, f.partial.value, h.entry.ranges, Missing(h, off, len))
  }

  /** fetchMissingRanges; also gives the number of bytes fetched and recorded. */
  ghost function FetchMissing(cfg: Config, env: Env, f: Files, h: Handle, off: int,
                              len: int): (Files, Handle, bool, int)
  {
    if Missing(h, off, len) == [] || f.partial.None? then (f, h, Missing(h, off, len) == [], 0)
    else
      var p := GapFetch(env, f, h, off, len);
      var (f1, h1) := Settle(cfg, env, f, h, p);
      (f1, h1, p.end == Fetched, p.fetched)
  }

  datatype ReadOutcome = ReadOutcome(files: Files, handle: Handle, result: ReadResult, fetched: int)

  ghost function ReadAt(cfg: Config, env: Env, f: Files, h: Handle, off: int, len: int): ReadOutcome {
    if len <= 0 then ReadOutcome(f, h, ReadOk([], false), 0)
    else if h.closed then ReadOutcome(f, h, ReadFailed, 0)
    else if h.entry.complete || Span(off, off + len) <= Bytes(h.entry.ranges) then
      ReadOutcome(f, h, FileReadAt(Content(f, h), off, len), 0)
    else
      var (f1, h1, fetched, n) := FetchMissing(cfg, env, f, h, off, len);
      ReadOutcome(f1, h1, if fetched then FileReadAt(Content(f1, h1), off, len) else ReadFailed, n)
  }

  function Close(env: Env, f: Files, h: Handle): (Files, Handle) {
    if h.closed then (f, h)
    else (Save(env.ok(SaveProgress), f, h.entry, env.now), h.(closed := true))
  }

  // ---------- what an open handle always satisfies ----------

  /** What a handle needs to be read through. */
  ghost predicate Usable(f: Files, h: Handle) {
    && h.desc.Valid()
    && (!h.entry.complete ==> Recordable(h.entry.ranges) && h.file == OnPartial && f.partial.Some?)
    && (h.entry.complete ==> h.entry.verified && h.entry.ranges == [] && h.file != OnPartial)
  }

  /** Shape of an open handle on its files, whatever the registry answered. */
  ghost predicate Shaped(f: Files, h: Handle) {
    && Usable(f, h)
    && (!h.entry.complete ==> |f.partial.value| == h.desc.size && Within(Bytes(h.entry.ranges), h.desc.size))
  }

  /** Every recorded byte is the blob's. */
  ghost predicate Faithful(f: Files, h: Handle, blob: Blob) {
    && Shaped(f, h) && |blob| == h.desc.size
    && (!h.entry.complete ==> Agrees(f.partial.value, blob, Bytes(h.entry.ranges)))
    && (h.entry.complete && h.file.OnBlob? ==> h.file.content == blob)
  }

  lemma MissingIsInside(f: Files, h: Handle, off: int, len: int)
    requires Shaped(f, h) && !h.entry.complete
    ensures var gaps := Missing(h, off, len);
      && Canonical(gaps) && Bytes(gaps) !! Bytes(h.entry.ranges)
      && Within(Bytes(gaps), h.desc.size)
      && Recordable(gaps) && (forall g <- gaps :: g.End() <= h.desc.size)
  {
    var gaps := Missing(h, off, len);
    CanonicalInside(gaps, h.desc.size);
  }

  /** The bytes a handle accounts for. */
  ghost function Coverage(h: Handle): set<int> {
    if h.entry.complete then Span(0, h.desc.size) else Bytes(h.entry.ranges)
  }

  /** Whatever the registry answers and whichever file steps fail, a read keeps the
      shape, never forgets a byte, fetches exactly the bytes it adds, and covers
      its window when it succeeds. */
  lemma ReadCovers(cfg: Config, env: Env, f: Files, h: Handle, off: int, len: int)
    requires Shaped(f, h)
    ensures var o := ReadAt(cfg, env, f, h, off, len);
      && Shaped(o.files, o.handle) && o.handle.desc == h.desc && o.handle.closed == h.closed
      && Coverage(h) <= Coverage(o.handle)
      && |Coverage(o.handle)| == |Coverage(h)| + o.fetched
      && (0 < len && o.result.ReadOk? ==> Wanted(h.desc, off, len) <= Coverage(o.handle))
  {
    if 0 < len && !h.closed && !h.entry.complete {
      if Span(off, off + len) <= Bytes(h.entry.ranges) {
        assert Wanted(h.desc, off, len) <= Span(off, off + len);
      } else {
        FetchMissingCovers(cfg, env, f, h, off, len);
      }
    } else if h.entry.complete {
      assert Wanted(h.desc, off, len) <= Span(0, h.desc.size);
    }
  }

  lemma GapShape(env: Env, f: Files, h: Handle, off: int, len: int)
    requires Shaped(f, h) && !h.entry.complete
    ensures var p := GapFetch(env, f, h, off, len);
      && |p.file| == h.desc.size
      && Recordable(p.ranges) && Within(Bytes(p.ranges), h.desc.size)
  {
    var gaps := Missing(h, off, len);
    MissingIsInside(f, h, off, len);
    FetchFrame(env, f.partial.value, h.entry.ranges, gaps);
    FetchCoverage(env, f.partial.value, h.entry.ranges, gaps);
    var p := GapFetch(env, f, h, off, len);
    if p.ranges != h.entry.ranges {
      CanonicalInside(p.ranges, h.desc.size);
    }
  }

  lemma CoveredExactly(before: set<int>, wanted: set<int>, gaps: set<int>, after: set<int>)
    requires gaps == wanted - before && before <= after
    requires forall b :: b in after ==> b in before || b in gaps
    ensures gaps <= after ==> after == before + wanted
    ensures wanted <= after ==> gaps <= after
  {
    if gaps <= after {
      forall b
        ensures b in after <==> b in before + wanted
      {
        assert b in wanted ==> b in before || b in gaps;
      }
      assert after == before + wanted;
    }
  }

  /** What the gap loop of a read records. */
  lemma GapProgress(env: Env, f: Files, h: Handle, off: int, len: int)
    requires Shaped(f, h) && !h.entry.complete
    ensures var p := GapFetch(env, f, h, off, len);
      && Bytes(h.entry.ranges) <= Bytes(p.ranges)
      && |Bytes(p.ranges)| == |Bytes(h.entry.ranges)| + p.fetched
      && (p.end == Fetched ==> Bytes(p.ranges) == Bytes(h.entry.ranges) + Wanted(h.desc, off, len))
      && (p.end != Fetched ==> !(Wanted(h.desc, off, len) <= Bytes(p.ranges)))
  {
    var gaps := Missing(h, off, len);
    MissingIsInside(f, h, off, len);
    FetchCoverage(env, f.partial.value, h.entry.ranges, gaps);
    FetchConserves(env, f.partial.value, h.entry.ranges, gaps);
    var p := GapFetch(env, f, h, off, len);
    CoveredExactly(Bytes(h.entry.ranges), Wanted(h.desc, off, len), Bytes(gaps), Bytes(p.ranges));
  }

  lemma SettleCovers(cfg: Config, env: Env, f: Files, h: Handle, p: Progress)
    requires h.desc.Valid() && !h.entry.complete && h.file == OnPartial
    requires |p.file| == h.desc.size && Recordable(p.ranges) && Within(Bytes(p.ranges), h.desc.size)
    ensures var (f1, h1) := Settle(cfg, env, f, h, p);
      && Shaped(f1, h1) && h1.desc == h.desc && h1.closed == h.closed
      && Coverage(h1) == Bytes(p.ranges)
  {
  }

  lemma EmptyDifference(a: set<int>, b: set<int>)
    requires a - b == {}
    ensures a <= b && b + a == b
  {
    assert forall x :: x in a ==> x in b || x in a - b;
  }

  lemma FetchMissingCovers(cfg: Config, env: Env, f: Files, h: Handle, off: int, len: int)
    requires Shaped(f, h) && !h.entry.complete
    ensures var (f1, h1, fetched, n) := FetchMissing(cfg, env, f, h, off, len);
      && Shaped(f1, h1) && h1.desc == h.desc && h1.closed == h.closed
      && Coverage(h) <= Coverage(h1)
      && |Coverage(h1)| == |Coverage(h)| + n
      && (fetched ==> Coverage(h1) == Coverage(h) + Wanted(h.desc, off, len))
      && (!fetched ==> !(Wanted(h.desc, off, len) <= Coverage(h1)))
  {
    if Missing(h, off, len) == [] {
      EmptyDifference(Wanted(h.desc, off, len), Bytes(h.entry.ranges));
    } else {
      GapShape(env, f, h, off, len);
      GapProgress(env, f, h, off, len);
      SettleCovers(cfg, env, f, h, GapFetch(env, f, h, off, len));
    }
  }

  /** Whatever the registry answers, short, broken or overlong, a read alters no
      recorded byte of the file the handle reads. */
  lemma ReadKeepsRecordedBytes(cfg: Config, env: Env, f: Files, h: Handle, off: int, len: int)
    requires Shaped(f, h) && !h.entry.complete
    ensures var o := ReadAt(cfg, env, f, h, off, len);
      Content(o.files, o.handle).Some? ==>
        var content := Content(o.files, o.handle).value;
        |content| == h.desc.size
        && forall b :: b in Bytes(h.entry.ranges) ==> content[b] == f.partial.value[b]
  {
    MissingIsInside(f, h, off, len);
    FetchFrame(env, f.partial.value, h.entry.ranges, Missing(h, off, len));
  }

  // ---------- lazy reading refines plain reading ----------

  lemma GapFaithful(env: Env, f: Files, h: Handle, off: int, len: int, blob: Blob)
    requires Faithful(f, h, blob) && !h.entry.complete && HonestRanges(env, blob)
    ensures var p := GapFetch(env, f, h, off, len);
      Agrees(p.file, blob, Bytes(p.ranges))
  {
    MissingIsInside(f, h, off, len);
    FetchAgrees(env, f.partial.value, h.entry.ranges, Missing(h, off, len), blob, Bytes(h.entry.ranges));
  }

  lemma SettleFaithful(cfg: Config, env: Env, f: Files, h: Handle, p: Progress, blob: Blob)
    requires h.desc.Valid() && !h.entry.complete && h.file == OnPartial && |blob| == h.desc.size
    requires |p.file| == h.desc.size && Recordable(p.ranges) && Within(Bytes(p.ranges), h.desc.size)
    requires Agrees(p.file, blob, Bytes(p.ranges))
    ensures var (f1, h1) := Settle(cfg, env, f, h, p);
      Faithful(f1, h1, blob)
  {
    if Bytes(p.ranges) == Span(0, h.desc.size) {
      assert p.file == blob by {
        assert forall i :: 0 <= i < |blob| ==> i in Bytes(p.ranges);
      }
    }
  }

  /** A window whose blob part is recorded reads as the blob. */
  lemma ReadFaithfulWindow(f: Files, h: Handle, off: int, len: int, blob: Blob)
    requires Faithful(f, h, blob) && 0 < len
    requires Wanted(h.desc, off, len) <= Coverage(h)
    ensures FileReadAt(Content(f, h), off, len).ReadOk? ==>
      FileReadAt(Content(f, h), off, len) == FileReadAt(Some(blob), off, len)
  {
    if !h.entry.complete && 0 <= off {
      var c := f.partial.value;
      var start, end := Min(off, |c|), Min(off + len, |c|);
      forall i | start <= i < end
        ensures c[i] == blob[i]
      {
        assert i in Wanted(h.desc, off, len);
      }
      assert c[start..end] == blob[start..end];
    }
  }

  /** With honest ranges, whichever fetches and file steps fail: a read that
      succeeds gives what reading the whole blob gives, and the handle stays
      faithful. */
  lemma ReadRefines(cfg: Config, env: Env, f: Files, h: Handle, off: int, len: int, blob: Blob)
    requires Faithful(f, h, blob) && HonestRanges(env, blob)
    ensures var o := ReadAt(cfg, env, f, h, off, len);
      && Faithful(o.files, o.handle, blob)
      && (0 < len && o.result.ReadOk? ==> o.result == FileReadAt(Some(blob), off, len))
  {
    var o := ReadAt(cfg, env, f, h, off, len);
    ReadCovers(cfg, env, f, h, off, len);
    if 0 < len && !h.closed && !h.entry.complete && !(Span(off, off + len) <= Bytes(h.entry.ranges))
       && Missing(h, off, len) != [] {
      GapShape(env, f, h, off, len);
      GapFaithful(env, f, h, off, len, blob);
      SettleFaithful(cfg, env, f, h, GapFetch(env, f, h, off, len), blob);
    }
    if 0 < len && o.result.ReadOk? {
      ReadFaithfulWindow(o.files, o.handle, off, len, blob);
    }
  }

  // ---------- completion ----------

  /** A handle is complete exactly when nothing is missing, and then the blob is
      published and its stored entry says so. */
  ghost predicate CompleteExactly(f: Files, h: Handle, blob: Blob) {
    && (h.entry.complete <==> Coverage(h) == Span(0, h.desc.size))
    && (h.entry.complete ==>
        && h.entry.verified && h.entry.ranges == []
        && h.file == OnBlob(blob) && f.blob == Some(blob) && f.partial == None
        && f.entry.Some? && f.entry.value.Done() && f.entry.value.ranges == [])
  }

  lemma SettleCompletes(cfg: Config, env: Env, f: Files, h: Handle, p: Progress, blob: Blob)
    requires h.desc.Valid() && !h.entry.complete && h.file == OnPartial && |blob| == h.desc.size
    requires |p.file| == h.desc.size && Recordable(p.ranges) && Within(Bytes(p.ranges), h.desc.size)
    requires Agrees(p.file, blob, Bytes(p.ranges))
    requires cfg.hash(blob) == h.desc.digest && FilesOk(env)
    requires p.end != Fetched ==> Bytes(p.ranges) != Span(0, h.desc.size)
    ensures var (f1, h1) := Settle(cfg, env, f, h, p);
      CompleteExactly(f1, h1, blob)
  {
    if Bytes(p.ranges) == Span(0, h.desc.size) {
      assert p.file == blob by {
        assert forall i :: 0 <= i < |blob| ==> i in Bytes(p.ranges);
      }
    }
  }

  lemma FetchMissingCompletes(cfg: Config, env: Env, f: Files, h: Handle, off: int, len: int, blob: Blob)
    requires Faithful(f, h, blob) && HonestRanges(env, blob) && FilesOk(env)
    requires cfg.hash(blob) == h.desc.digest && CompleteExactly(f, h, blob) && !h.entry.complete
    ensures var (f1, h1, _, _) := FetchMissing(cfg, env, f, h, off, len);
      CompleteExactly(f1, h1, blob)
  {
    var p := GapFetch(env, f, h, off, len);
    GapShape(env, f, h, off, len);
    GapProgress(env, f, h, off, len);
    GapFaithful(env, f, h, off, len, blob);
    assert Wanted(h.desc, off, len) <= Span(0, h.desc.size);
    SettleCompletes(cfg, env, f, h, p, blob);
  }

  lemma ReadCompletes(cfg: Config, env: Env, f: Files, h: Handle, off: int, len: int, blob: Blob)
    requires Faithful(f, h, blob) && HonestRanges(env, blob) && FilesOk(env)
    requires cfg.hash(blob) == h.desc.digest && CompleteExactly(f, h, blob)
    ensures var o := ReadAt(cfg, env, f, h, off, len);
      CompleteExactly(o.files, o.handle, blob)
  {
    if !h.entry.complete {
      FetchMissingCompletes(cfg, env, f, h, off, len, blob);
    }
  }

  /** When the registry answers, a read adds exactly its window. */
  lemma ReadAnswered(cfg: Config, env: Env, f: Files, h: Handle, off: int, len: int, blob: Blob)
    requires Shaped(f, h) && !h.closed && 0 < len
    requires AnswersRanges(env, blob) && |blob| == h.desc.size
    ensures var o := ReadAt(cfg, env, f, h, off, len);
      Coverage(o.handle) == Coverage(h) + Wanted(h.desc, off, len)
  {
    assert Wanted(h.desc, off, len) <= Span(0, h.desc.size);
    assert Wanted(h.desc, off, len) <= Span(off, off + len);
    if !h.entry.complete && !(Span(off, off + len) <= Bytes(h.entry.ranges)) {
      MissingIsInside(f, h, off, len);
      FetchAnswered(env, f.partial.value, h.entry.ranges, Missing(h, off, len), blob);
      FetchMissingCovers(cfg, env, f, h, off, len);
    }
  }

  // ---------- sequences of reads ----------

  datatype Read = Read(env: Env, off: int, len: int)

  datatype Run = Run(files: Files, handle: Handle, results: seq<ReadResult>, fetched: int)

  ghost function RunReads(cfg: Config, f: Files, h: Handle, calls: seq<Read>): (r: Run)
    ensures |r.results| == |calls|
    decreases |calls|
  {
    if calls == [] then Run(f, h, [], 0)
    else
      var o := ReadAt(cfg, calls[0].env, f, h, calls[0].off, calls[0].len);
      var rest := RunReads(cfg, o.files, o.handle, calls[1..]);
      rest.(results := [o.result] + rest.results, fetched := rest.fetched + o.fetched)
  }

  /** Every successful read of every sequence of reads gives what a plain read of
      the blob gives, EOF included. */
  lemma {:induction false} LazyRefinesPlain(cfg: Config, f: Files, h: Handle, calls: seq<Read>, blob: Blob)
    requires Faithful(f, h, blob)
    requires forall r <- calls :: HonestRanges(r.env, blob) && 0 < r.len
    ensures var run := RunReads(cfg, f, h, calls);
      && Faithful(run.files, run.handle, blob)
      && forall i :: 0 <= i < |calls| && run.results[i].ReadOk? ==>
           run.results[i] == FileReadAt(Some(blob), calls[i].off, calls[i].len)
    decreases |calls|
  {
    if calls != [] {
      var r := calls[0];
      var o := ReadAt(cfg, r.env, f, h, r.off, r.len);
      ReadRefines(cfg, r.env, f, h, r.off, r.len, blob);
      LazyRefinesPlain(cfg, o.files, o.handle, calls[1..], blob);
    }
  }

  /** No byte is fetched and recorded twice: over any sequence of reads, any
      registry and any file failures, the fetched bytes are exactly the growth of
      the coverage, so they never exceed the size. */
  lemma {:induction false} FetchesAreCoverageGrowth(cfg: Config, f: Files, h: Handle, calls: seq<Read>)
    requires Shaped(f, h)
    ensures var run := RunReads(cfg, f, h, calls);
      && Shaped(run.files, run.handle) && run.handle.desc == h.desc
      && Coverage(h) <= Coverage(run.handle)
      && run.fetched == |Coverage(run.handle)| - |Coverage(h)| <= h.desc.size
      && forall i :: 0 <= i < |calls| && 0 < calls[i].len && run.results[i].ReadOk? ==>
           Wanted(h.desc, calls[i].off, calls[i].len) <= Coverage(run.handle)
    decreases |calls|
  {
    if calls != [] {
      var r := calls[0];
      var o := ReadAt(cfg, r.env, f, h, r.off, r.len);
      ReadCovers(cfg, r.env, f, h, r.off, r.len);
      FetchesAreCoverageGrowth(cfg, o.files, o.handle, calls[1..]);
    }
    CoverageSize(RunReads(cfg, f, h, calls).files, RunReads(cfg, f, h, calls).handle);
  }

  lemma CoverageSize(f: Files, h: Handle)
    requires Shaped(f, h)
    ensures |Coverage(h)| <= h.desc.size
  {
    SpanSize(0, h.desc.size);
    SubsetSize(Coverage(h), Span(0, h.desc.size));
  }

  ghost function Windows(desc: Descriptor, calls: seq<Read>): set<int> {
    if calls == [] then {} else Wanted(desc, calls[0].off, calls[0].len) + Windows(desc, calls[1..])
  }

  /** With an honest registry whose fetches may still fail, and no file failures, a
      handle that starts incomplete is complete (verified, published, its ranges
      cleared) exactly when nothing is missing. */
  lemma {:induction false} LazyCompletes(cfg: Config, f: Files, h: Handle, calls: seq<Read>, blob: Blob)
    requires Faithful(f, h, blob) && CompleteExactly(f, h, blob)
    requires cfg.hash(blob) == h.desc.digest
    requires forall r <- calls :: HonestRanges(r.env, blob) && FilesOk(r.env)
    ensures var run := RunReads(cfg, f, h, calls);
      CompleteExactly(run.files, run.handle, blob)
    decreases |calls|
  {
    if calls != [] {
      var r := calls[0];
      var o := ReadAt(cfg, r.env, f, h, r.off, r.len);
      ReadCovers(cfg, r.env, f, h, r.off, r.len);
      ReadRefines(cfg, r.env, f, h, r.off, r.len, blob);
      ReadCompletes(cfg, r.env, f, h, r.off, r.len, blob);
      LazyCompletes(cfg, o.files, o.handle, calls[1..], blob);
    }
  }

  /** If the registry answers every fetch, the coverage is the initial one and the
      windows of the reads, in any order and with any overlaps; so a handle with
      something missing completes exactly when these cover the blob. */
  lemma {:induction false} AnsweredReadsCoverWindows(cfg: Config, f: Files, h: Handle, calls: seq<Read>, blob: Blob)
    requires Shaped(f, h) && !h.closed && |blob| == h.desc.size
    requires forall r <- calls :: AnswersRanges(r.env, blob) && 0 < r.len
    ensures Coverage(RunReads(cfg, f, h, calls).handle) == Coverage(h) + Windows(h.desc, calls)
    decreases |calls|
  {
    if calls != [] {
      var r := calls[0];
      var o := ReadAt(cfg, r.env, f, h, r.off, r.len);
      ReadCovers(cfg, r.env, f, h, r.off, r.len);
      ReadAnswered(cfg, r.env, f, h, r.off, r.len, blob);
      AnsweredReadsCoverWindows(cfg, o.files, o.handle, calls[1..], blob);
    }
  }

  lemma LazyCompletesWhenCovered(cfg: Config, f: Files, h: Handle, calls: seq<Read>, blob: Blob)
    requires Faithful(f, h, blob) && !h.closed && !h.entry.complete
    requires Bytes(h.entry.ranges) != Span(0, h.desc.size)
    requires cfg.hash(blob) == h.desc.digest
    requires forall r <- calls :: AnswersRanges(r.env, blob) && FilesOk(r.env) && 0 < r.len
    ensures var run := RunReads(cfg, f, h, calls);
      && (run.handle.entry.complete <==> Bytes(h.entry.ranges) + Windows(h.desc, calls) == Span(0, h.desc.size))
      && CompleteExactly(run.files, run.handle, blob)
  {
    LazyCompletes(cfg, f, h, calls, blob);
    AnsweredReadsCoverWindows(cfg, f, h, calls, blob);
    FetchesAreCoverageGrowth(cfg, f, h, calls);
  }

  // ---------- reads succeed ----------

  /** What a plain read of the blob gives: the bytes of the window that the blob has, and
      EOF exactly when the window reaches past it. */
  predicate IsPlainRead(r: ReadResult, blob: Blob, off: int, len: int)
    requires 0 <= off && 0 <= len
  {
    && r.ReadOk?
    && r.data == blob[Min(off, |blob|)..Min(off + len, |blob|)]
    && (r.eof <==> |blob| < off + len)
  }

  /** A handle whose file can be read. */
  ghost predicate Readable(h: Handle) {
    !h.closed && (h.entry.complete ==> h.file.OnBlob?)
  }

  lemma SettleReadable(cfg: Config, env: Env, f: Files, h: Handle, p: Progress)
    requires Readable(h) && !h.entry.complete && h.file == OnPartial && FilesOk(env)
    ensures var (f1, h1) := Settle(cfg, env, f, h, p);
      Readable(h1) && Content(f1, h1).Some?
  {
  }

  lemma FetchMissingReadable(cfg: Config, env: Env, f: Files, h: Handle, off: int, len: int, blob: Blob)
    requires Shaped(f, h) && Readable(h) && !h.entry.complete
    requires AnswersRanges(env, blob) && |blob| == h.desc.size && FilesOk(env)
    ensures var (f1, h1, fetched, _) := FetchMissing(cfg, env, f, h, off, len);
      fetched && Readable(h1) && Content(f1, h1).Some?
  {
    MissingIsInside(f, h, off, len);
    FetchAnswered(env, f.partial.value, h.entry.ranges, Missing(h, off, len), blob);
    SettleReadable(cfg, env, f, h, GapFetch(env, f, h, off, len));
  }

  /** While the registry answers and the file steps work, every read of a faithful handle
      succeeds and reads the blob: also the one that completes it, and all after that. */
  lemma ReadSucceeds(cfg: Config, env: Env, f: Files, h: Handle, off: int, len: int, blob: Blob)
    requires Faithful(f, h, blob) && Readable(h) && 0 <= off && 0 < len
    requires AnswersRanges(env, blob) && FilesOk(env)
    ensures var o := ReadAt(cfg, env, f, h, off, len);
      IsPlainRead(o.result, blob, off, len) && Faithful(o.files, o.handle, blob) && Readable(o.handle)
  {
    ReadRefines(cfg, env, f, h, off, len, blob);
    if !h.entry.complete && !(Span(off, off + len) <= Bytes(h.entry.ranges)) {
      FetchMissingReadable(cfg, env, f, h, off, len, blob);
    }
  }

  lemma {:induction false} AllReadsSucceed(cfg: Config, f: Files, h: Handle, calls: seq<Read>, blob: Blob)
    requires Faithful(f, h, blob) && Readable(h)
    requires forall r <- calls :: AnswersRanges(r.env, blob) && FilesOk(r.env) && 0 <= r.off && 0 < r.len
    ensures var run := RunReads(cfg, f, h, calls);
      forall i :: 0 <= i < |calls| ==> IsPlainRead(run.results[i], blob, calls[i].off, calls[i].len)
    decreases |calls|
  {
    if calls != [] {
      var r := calls[0];
      var o := ReadAt(cfg, r.env, f, h, r.off, r.len);
      ReadSucceeds(cfg, r.env, f, h, r.off, r.len, blob);
      AllReadsSucceed(cfg, o.files, o.handle, calls[1..], blob);
    }
  }

  /** After Close every read of a byte or more fails and changes nothing, and so does a
      second Close. */
  lemma ClosedReadsFail(cfg: Config, env: Env, env2: Env, f: Files, h: Handle, off: int, len: int)
    ensures var (f1, h1) := Close(env, f, h);
      && h1.closed && h1.entry == h.entry
      && (0 < len ==> ReadAt(cfg, env2, f1, h1, off, len) == ReadOutcome(f1, h1, ReadFailed, 0))
      && Close(env2, f1, h1) == (f1, h1)
  {
  }

  // ---------- what a read leaves when something fails ----------

  /** A read that had to fetch saves what the handle then knows, and fails exactly when a
      gap is not answered, or the file it would read cannot be read. */
  lemma ReadSavesProgress(cfg: Config, env: Env, f: Files, h: Handle, off: int, len: int)
    requires Shaped(f, h) && !h.closed && !h.entry.complete && 0 < len
    requires Missing(h, off, len) != []
    ensures var o := ReadAt(cfg, env, f, h, off, len);
      && (env.ok(SaveProgress) ==> o.files.entry == Some(o.handle.entry.(lastAccessed := env.now)))
      && (!env.ok(SaveProgress) ==> o.files.entry == f.entry)
      && (o.result.ReadOk? <==>
            && 0 <= off && o.handle.file != Unusable
            && forall g <- Missing(h, off, len) :: Answered(env, g))
  {
    MissingIsInside(f, h, off, len);
    MissingOnlyWhenUncovered(h, off, len);
    FetchSucceedsIff(env, f.partial.value, h.entry.ranges, Missing(h, off, len));
  }

  lemma MissingOnlyWhenUncovered(h: Handle, off: int, len: int)
    ensures Span(off, off + len) <= Bytes(h.entry.ranges) ==> Missing(h, off, len) == []
  {
    if Span(off, off + len) <= Bytes(h.entry.ranges) {
      assert Wanted(h.desc, off, len) - Bytes(h.entry.ranges) == {};
    }
  }

  /** How a filled file is verified and published, step by step: a file that cannot be
      synced or hashed, or hashes to something else, stays partial and readable; a failed
      rename leaves a complete entry, an unusable file and nothing published. */
  lemma CompletionOutcome(cfg: Config, env: Env, f: Files, h: Handle)
    requires f.partial.Some? && h.file == OnPartial && !h.entry.complete
    ensures var (f1, h1) := VerifyAndComplete(cfg, env, f, h);
      var right := env.ok(SyncPartial) && env.ok(HashPartial) && cfg.hash(f.partial.value) == h.desc.digest;
      && (!right ==> f1 == f && h1 == h)
      && (right ==> h1.entry == h.entry.(complete := true, verified := true, ranges := []))
      && (right && !env.ok(RenamePartial) ==> f1 == f && h1.file == Unusable)
      && (right && env.ok(RenamePartial) ==>
            && f1 == f.(blob := f.partial, partial := None)
            && h1.file == if env.ok(ReopenBlob) then OnBlob(f.partial.value) else Unusable)
  {
  }

  // ---------- opening ----------

  /** Verification on read and lazy loading exclude each other; otherwise, if the file
      steps work, opening never fails. */
  lemma LazyOpenSucceedsIff(cfg: Config, env: Env, desc: Descriptor, f: Files)
    requires FilesOk(env) && (f.entry.Some? && f.entry.value.complete ==> f.entry.value.verified)
    ensures var (f1, opening) := OpenLazy(cfg, env, desc, f);
      && (opening == LazyFailed <==> cfg.verifyOnRead)
      && (cfg.verifyOnRead ==> f1 == f)
      && (opening.LazyOpened? ==> opening.handle.desc == desc && Readable(opening.handle))
  {
  }

  /** When a session over unfinished or no progress starts: the partial file opens, its
      size is known, and if it is not the blob's it can be set. */
  lemma SessionStartsIff(cfg: Config, env: Env, desc: Descriptor, f: Files)
    requires !cfg.verifyOnRead && (f.entry.Some? ==> !f.entry.value.complete)
    ensures var size := if f.partial.Some? then |f.partial.value| else 0;
      var opening := OpenLazy(cfg, env, desc, f).1;
      && (opening.LazyOpened? <==>
            env.ok(OpenPartial) && env.ok(StatPartial) && (size == desc.size || env.ok(TruncatePartial)))
      && (!opening.LazyOpened? ==> opening == LazyFailed)
  {
  }

  /** What stands cached is handed out as it is, whatever the registry would answer. */
  lemma LazyHitNeedsNoRegistry(cfg: Config, env: Env, desc: Descriptor, f: Files)
    requires Stands(cfg, f) && !cfg.verifyOnRead && env.ok(ReadEntry) && env.ok(OpenBlob)
    ensures var touched := if env.ok(TouchEntry) then f.(entry := Some(f.entry.value.(lastAccessed := env.now))) else f;
      OpenLazy(cfg, env, desc, f) == (touched, LazyHit(FileHandle(f.blob.value, |f.blob.value|, true)))
  {
  }

  /** What is taken over from unfinished progress: all recorded ranges, unless the
      partial file is longer than the blob; then none, and the stored entry forgets them
      too.  The file has the blob's size, and keeps the bytes it had up to there. */
  lemma ProgressTakenOver(cfg: Config, env: Env, desc: Descriptor, f: Files)
    requires FilesOk(env) && !cfg.verifyOnRead && desc.Valid()
    requires f.entry.Some? && !f.entry.value.complete && f.partial.Some?
    ensures var (f1, opening) := OpenLazy(cfg, env, desc, f);
      var before := f.partial.value;
      && opening.LazyOpened?
      && opening.handle.entry.ranges == (if |before| > desc.size then [] else f.entry.value.ranges)
      && f1.entry == Some(opening.handle.entry.(lastAccessed := env.now))
      && f1.partial.Some? && |f1.partial.value| == desc.size
      && forall b :: 0 <= b < desc.size && b < |before| ==> f1.partial.value[b] == before[b]
  {
  }

  /** Without an entry and a partial file a session starts with nothing recorded. */
  lemma FreshSession(cfg: Config, env: Env, desc: Descriptor, f: Files)
    requires FilesOk(env) && !cfg.verifyOnRead && desc.Valid() && f.entry == None
    ensures var (f1, opening) := OpenLazy(cfg, env, desc, f);
      && opening == LazyOpened(Handle(desc, Entry(desc.digest, desc.size, false, false, [], env.now), OnPartial, false))
      && f1.entry == Some(opening.handle.entry) && f1.blob == f.blob
      && f1.partial.Some? && |f1.partial.value| == desc.size
  {
  }

  // ---------- handles stay usable ----------

  lemma MissingRecordable(h: Handle, off: int, len: int)
    requires h.desc.Valid()
    ensures Recordable(Missing(h, off, len))
  {
    CanonicalInside(Missing(h, off, len), MAX_INT64);
  }

  lemma ReadStaysUsable(cfg: Config, env: Env, f: Files, h: Handle, off: int, len: int)
    requires Usable(f, h) && Disk.Usable(f)
    ensures var o := ReadAt(cfg, env, f, h, off, len);
      Usable(o.files, o.handle) && Disk.Usable(o.files)
  {
    if !h.entry.complete {
      MissingRecordable(h, off, len);
      FetchRecordable(env, f.partial.value, h.entry.ranges, Missing(h, off, len));
    }
  }

  // ---------- closing and opening again ----------

  lemma TruncateSame(content: Blob, size: nat)
    requires |content| == size
    ensures Truncate(content, size) == content
  {
  }

  /** Progress survives a close: a handle that is opened again has the ranges and the
      bytes of the one closed, so nothing is fetched twice across sessions; after a
      completed one the published blob is hit. */
  lemma ReopenContinues(cfg: Config, env: Env, env2: Env, f: Files, h: Handle, blob: Blob)
    requires Shaped(f, h) && !h.closed && !cfg.verifyOnRead
    requires env.ok(SaveProgress) && FilesOk(env2)
    requires h.entry.complete ==> f.blob == Some(blob) && h.entry.size == |blob|
    ensures var (closed, _) := Close(env, f, h);
      var (f2, opening) := OpenLazy(cfg, env2, h.desc, closed);
      if h.entry.complete then
        opening == LazyHit(FileHandle(blob, |blob|, true)) && f2.blob == Some(blob)
      else
        && opening.LazyOpened? && f2.partial == f.partial
        && opening.handle.entry.ranges == h.entry.ranges && Coverage(opening.handle) == Coverage(h)
        && Shaped(f2, opening.handle)
  {
    if !h.entry.complete {
      TruncateSame(f.partial.value, h.desc.size);
    }
  }
}
