/** Range fetches over whole runs: across lazy sessions, closes, reopenings and
    resumes, what is fetched is exactly what is recorded. */
module Conservation {
  import opened Ranges
  import opened Disk
  import opened Download
  import opened CacheRuns
  import opened Recovery
  import opened Truth
  import Lazy

  /** The bytes of a digest that the cache accounts for. */
  ghost function SlotCoverage(size: int, s: Slot): set<int> {
    if s.session.LazySession? then Lazy.Coverage(s.session.handle)
    else if s.files.entry.None? then {}
    else if s.files.entry.value.complete then Span(0, size)
    else Bytes(s.files.entry.value.ranges)
  }

  /** The resume that a download of these files starts with, if it starts with one. */
  ghost function ResumeBytes(env: Env, desc: Descriptor, f: Files): int {
    if env.ok(RereadEntry) && HasProgress(f) && f.partial.Some? && env.ok(OpenPartial) then
      FetchGaps(env, f.partial.value, f.entry.value.ranges, ResumeGaps(f.entry.value, desc)).fetched
    else 0
  }

  /** The bytes an operation fetches by range requests and records. */
  ghost function RangeBytes(cfg: Config, env: Env, op: SlotOp, s: Slot): int {
    match op
    case DoOpen(desc) =>
      if HitFile(cfg, env, s.files).Some? then 0 else ResumeBytes(env, desc, Healed(env, s.files))
    case DoOpenStream(desc) =>
      if HitFile(cfg, env, s.files).Some? then 0 else ResumeBytes(env, desc, Healed(env, s.files))
    case DoPrefetch(desc) => if HitEntry(env, s.files).Some? then 0 else ResumeBytes(env, desc, s.files)
    case DoReadAt(off, len) =>
      if s.session.LazySession? then Lazy.ReadAt(cfg, env, s.files, s.session.handle, off, len).fetched else 0
    case _ => 0
  }

  predicate NoHealing(cfg: Config, env: Env, f: Files) {
    HitEntry(env, f).Some? ==> HitFile(cfg, env, f).Some?
  }

  /** The download of unfinished progress is a resume that publishes and saves. */
  ghost predicate Resumes(cfg: Config, env: Env, desc: Descriptor, f: Files) {
    && HasProgress(f) && f.partial.Some? && ResumeFinishes(env, desc, f) && env.ok(SaveEntry)
    && var p := FetchGaps(env, f.partial.value, f.entry.value.ranges, ResumeGaps(f.entry.value, desc));
      cfg.hash(p.file) == desc.digest
  }

  /** The operation gives up nothing that is recorded and transfers no whole blob: a
      hit, a resume that succeeds, or a part of a lazy session whose entries load and
      save. */
  ghost predicate Steady(cfg: Config, env: Env, op: SlotOp, s: Slot) {
    match op
    case DoOpen(desc) =>
      NoHealing(cfg, env, s.files) && (HitFile(cfg, env, s.files).None? ==> Resumes(cfg, env, desc, s.files))
    case DoOpenStream(desc) =>
      NoHealing(cfg, env, s.files) && (HitFile(cfg, env, s.files).None? ==> Resumes(cfg, env, desc, s.files))
    case DoPrefetch(desc) => HitEntry(env, s.files).None? ==> Resumes(cfg, env, desc, s.files)
    case DoOpenLazy(_) => NoHealing(cfg, env, s.files) && env.ok(RereadEntry)
    case DoReadAt(_, _) => true
    case DoLazyClose => env.ok(SaveProgress)
    case DoStreamRead(_) => true
    case DoStreamThrough(_, _) => false
    case DoStreamClose => false
    case DoEvict => false
  }

  lemma DownloadConserves(cfg: Config, env: Env, desc: Descriptor, f: Files)
    requires desc.Valid() && Usable(f) && FilesShaped(desc.size, f)
    requires Resumes(cfg, env, desc, f)
    ensures var (f1, downloaded) := DownloadBlob(cfg, env, desc, f);
      && downloaded && f1.entry.Some? && f1.entry.value.complete
      && ResumeBytes(env, desc, f) == desc.size - |Bytes(f.entry.value.ranges)|
  {
    ResumeConserves(env, desc, f.partial.value, f.entry.value);
  }

  lemma OpeningConserves(cfg: Config, env: Env, desc: Descriptor, f: Files)
    requires desc.Valid() && Usable(f) && FilesShaped(desc.size, f)
    requires HitFile(cfg, env, f).None? && NoHealing(cfg, env, f) && Resumes(cfg, env, desc, f)
    ensures Open(cfg, env, desc, f).0.entry.Some? && Open(cfg, env, desc, f).0.entry.value.complete
    ensures OpenStream(cfg, env, desc, f).0.entry.Some? && OpenStream(cfg, env, desc, f).0.entry.value.complete
    ensures ResumeBytes(env, desc, Healed(env, f)) == desc.size - |Bytes(f.entry.value.ranges)|
  {
    DownloadConserves(cfg, env, desc, f);
  }

  lemma LazyOpenConserves(cfg: Config, env: Env, desc: Descriptor, s: Slot)
    requires Allowed(desc.digest, DoOpenLazy(desc), s) && desc.Valid()
    requires Usable(s.files) && FilesShaped(desc.size, s.files) && Describes(s.files.entry, desc)
    requires NoHealing(cfg, env, s.files) && env.ok(RereadEntry)
    ensures SlotCoverage(desc.size, SlotStep(cfg, env, DoOpenLazy(desc), s)) == SlotCoverage(desc.size, s)
  {
    assert Bytes([]) == {};
  }

  lemma CloseConserves(cfg: Config, env: Env, d: Digest, s: Slot)
    requires Allowed(d, DoLazyClose, s) && env.ok(SaveProgress) && Lazy.Shaped(s.files, s.session.handle)
    requires !s.session.handle.closed
    ensures SlotCoverage(s.session.handle.desc.size, SlotStep(cfg, env, DoLazyClose, s)) ==
      SlotCoverage(s.session.handle.desc.size, s)
  {
  }

  /** An open session's handle is not closed: Close ends the session. */
  ghost predicate SessionOpen(s: Slot) {
    s.session.LazySession? ==> !s.session.handle.closed
  }

  lemma SlotConserves(cfg: Config, env: Env, desc: Descriptor, op: SlotOp, s: Slot)
    requires Allowed(desc.digest, op, s) && AsksFor(op, desc.size) && desc.Valid()
    requires SlotSound(cfg, desc, s) && SessionOpen(s) && Steady(cfg, env, op, s)
    ensures |SlotCoverage(desc.size, SlotStep(cfg, env, op, s))| ==
      |SlotCoverage(desc.size, s)| + RangeBytes(cfg, env, op, s)
    ensures SessionOpen(SlotStep(cfg, env, op, s))
  {
    SpanSize(0, desc.size);
    match op
    case DoOpen(_) =>
      if HitFile(cfg, env, s.files).None? {
        OpeningConserves(cfg, env, desc, s.files);
      }
    case DoOpenStream(_) =>
      if HitFile(cfg, env, s.files).None? {
        OpeningConserves(cfg, env, desc, s.files);
      }
    case DoPrefetch(_) =>
      if HitEntry(env, s.files).None? {
        DownloadConserves(cfg, env, desc, s.files);
      }
    case DoOpenLazy(_) => LazyOpenConserves(cfg, env, desc, s);
    case DoReadAt(off, len) => Lazy.ReadCovers(cfg, env, s.files, s.session.handle, off, len);
    case DoLazyClose => CloseConserves(cfg, env, desc.digest, s);
    case _ =>
  }

  // ---------- runs ----------

  /** The bytes an operation fetches for one digest. */
  ghost function OpBytes(cfg: Config, op: Op, c: Cache, d: Digest): int {
    if op.On? && op.digest == d then RangeBytes(cfg, op.env, op.op, At(c, d)) else 0
  }

  ghost predicate OpSteady(cfg: Config, op: Op, c: Cache, d: Digest) {
    match op
    case On(e, env, slotOp) => e == d ==> Steady(cfg, env, slotOp, At(c, d))
    case DoPrune(entries, _, _, toRemove, _, _, _) => d !in toRemove
    case DoClear(wipes, _) => !wipes(d).entry
    case DoUpdateRef(_, _, _, _) => true
  }

  ghost function FetchedBy(cfg: Config, c: Cache, ops: seq<Op>, d: Digest): int {
    if ops == [] then 0
    else
      var before := After(cfg, c, ops[..|ops| - 1]);
      var op := ops[|ops| - 1];
      FetchedBy(cfg, c, ops[..|ops| - 1], d) + if Enabled(op, before) then OpBytes(cfg, op, before, d) else 0
  }

  ghost predicate AlwaysSteady(cfg: Config, c: Cache, ops: seq<Op>, d: Digest) {
    if ops == [] then true
    else
      var before := After(cfg, c, ops[..|ops| - 1]);
      var op := ops[|ops| - 1];
      AlwaysSteady(cfg, c, ops[..|ops| - 1], d) && (Enabled(op, before) ==> OpSteady(cfg, op, before, d))
  }

  lemma StepConserves(cfg: Config, op: Op, c: Cache, d: Digest, sizes: Digest -> int)
    requires Enabled(op, c) && Sound(cfg, c, sizes) && Consistent(op, sizes) && SessionOpen(At(c, d))
    requires OpSteady(cfg, op, c, d)
    ensures var after := Step(cfg, op, c);
      && SessionOpen(At(after, d))
      && |SlotCoverage(sizes(d), At(after, d))| == |SlotCoverage(sizes(d), At(c, d))| + OpBytes(cfg, op, c, d)
  {
    StepAt(cfg, op, c, d);
    if op.On? && op.digest == d {
      assert SlotSound(cfg, Descriptor(d, sizes(d)), At(c, d));
      SlotConserves(cfg, op.env, Descriptor(d, sizes(d)), op.op, At(c, d));
    }
  }

  lemma CoverageFits(cfg: Config, desc: Descriptor, s: Slot)
    requires SlotSound(cfg, desc, s) && 0 <= desc.size
    ensures |SlotCoverage(desc.size, s)| <= desc.size
  {
    SpanSize(0, desc.size);
    SubsetSize(SlotCoverage(desc.size, s), Span(0, desc.size));
  }

  /** Over every run that stays steady for a digest, with any registry and any number of
      sessions and resumes, the bytes fetched for it are the growth of its coverage: no
      byte is fetched and recorded twice, and never more than the size. */
  lemma {:induction false} FetchesAreConservedOverRuns(cfg: Config, c: Cache, ops: seq<Op>, d: Digest,
                                                       sizes: Digest -> int)
    requires Sound(cfg, c, sizes) && (forall op <- ops :: Consistent(op, sizes)) && SessionOpen(At(c, d))
    requires AlwaysSteady(cfg, c, ops, d) && 0 <= sizes(d)
    ensures var after := After(cfg, c, ops);
      && SessionOpen(At(after, d))
      && FetchedBy(cfg, c, ops, d) == |SlotCoverage(sizes(d), At(after, d))| - |SlotCoverage(sizes(d), At(c, d))|
      && FetchedBy(cfg, c, ops, d) <= sizes(d)
  {
    RunsStaySound(cfg, c, ops, sizes);
    assert SlotSound(cfg, Descriptor(d, sizes(d)), At(After(cfg, c, ops), d));
    CoverageFits(cfg, Descriptor(d, sizes(d)), At(After(cfg, c, ops), d));
    if ops != [] {
      var op := ops[|ops| - 1];
      var before := After(cfg, c, ops[..|ops| - 1]);
      FetchesAreConservedOverRuns(cfg, c, ops[..|ops| - 1], d, sizes);
      RunsStaySound(cfg, c, ops[..|ops| - 1], sizes);
      assert op in ops;
      if Enabled(op, before) {
        StepConserves(cfg, op, before, d, sizes);
      }
    }
  }
}
