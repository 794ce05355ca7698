/** The whole cache as a state machine, and what holds over every run of it.

    A digest has at most one open lazy handle or stream-through reader, and while it
    has one no other operation touches that digest: the code has no lock per digest
    and promises nothing for overlapping writers. */
module CacheRuns {
  import opened Ranges
  import opened Disk
  import opened Download
  import opened Truth
  import Lazy
  import Stream
  import Prune

  datatype Session = Idle | LazySession(handle: Lazy.Handle) | StreamSession(reader: Stream.Reader)

  datatype Slot = Slot(files: Files, session: Session)

  datatype RefEntry = RefEntry(digest: Digest, size: int, validatedAt: int)

  /** The files on disk, the reference index, and who has a digest open. */
  datatype Cache = Cache(files: map<Digest, Files>, sessions: map<Digest, Session>, refs: map<string, RefEntry>)

  const EMPTY := Cache(map[], map[], map[])

  function FilesAt(files: map<Digest, Files>, d: Digest): Files {
    if d in files then files[d] else NO_FILES
  }

  function SessionAt(sessions: map<Digest, Session>, d: Digest): Session {
    if d in sessions then sessions[d] else Idle
  }

  function At(c: Cache, d: Digest): Slot {
    Slot(FilesAt(c.files, d), SessionAt(c.sessions, d))
  }

  // ---------- operations on one digest ----------

  datatype SlotOp =
    | DoOpen(desc: Descriptor)
    | DoOpenStream(desc: Descriptor)
    | DoPrefetch(desc: Descriptor)
    | DoStreamThrough(desc: Descriptor, source: Stream.Source)
    | DoStreamRead(n: nat)
    | DoStreamClose
    | DoOpenLazy(desc: Descriptor)
    | DoReadAt(off: int, len: int)
    | DoLazyClose
    | DoEvict

  /** Who may act: the owner of an open handle, or anybody if there is none. */
  predicate Allowed(d: Digest, op: SlotOp, s: Slot) {
    match op
    case DoOpen(desc) => s.session.Idle? && desc.digest == d
    case DoOpenStream(desc) => s.session.Idle? && desc.digest == d
    case DoPrefetch(desc) => s.session.Idle? && desc.digest == d
    case DoStreamThrough(desc, _) => s.session.Idle? && desc.digest == d
    case DoOpenLazy(desc) => s.session.Idle? && desc.digest == d
    case DoEvict => s.session.Idle?
    case DoStreamRead(_) => s.session.StreamSession? && s.session.reader.pos <= |s.session.reader.source.data|
    case DoStreamClose => s.session.StreamSession? && s.session.reader.pos <= |s.session.reader.source.data|
    case DoReadAt(_, _) => s.session.LazySession?
    case DoLazyClose => s.session.LazySession?
  }

  ghost function SlotStep(cfg: Config, env: Env, op: SlotOp, s: Slot): Slot
    requires exists d :: Allowed(d, op, s)
  {
    match op
    case DoOpen(desc) => s.(files := Open(cfg, env, desc, s.files).0)
    case DoOpenStream(desc) => s.(files := OpenStream(cfg, env, desc, s.files).0)
    case DoPrefetch(desc) => s.(files := Prefetch(cfg, env, desc, s.files))
    case DoEvict => s.(files := Evict(env, s.files).0)
    case DoStreamThrough(desc, source) =>
      var (f, opening) := Stream.OpenStreamThrough(cfg, env, desc, source, s.files);
      Slot(f, if opening.Streaming? then StreamSession(opening.reader) else Idle)
    case DoStreamRead(n) =>
      var (f, r, _) := Stream.Read(env.ok(WriteTmp), s.files, s.session.reader, n);
      Slot(f, StreamSession(r))
    case DoStreamClose => Slot(Stream.Close(cfg, env, s.files, s.session.reader), Idle)
    case DoOpenLazy(desc) =>
      var (f, opening) := Lazy.OpenLazy(cfg, env, desc, s.files);
      Slot(f, if opening.LazyOpened? then LazySession(opening.handle) else Idle)
    case DoReadAt(off, len) =>
      var o := Lazy.ReadAt(cfg, env, s.files, s.session.handle, off, len);
      Slot(o.files, LazySession(o.handle))
    case DoLazyClose => Slot(Lazy.Close(env, s.files, s.session.handle).0, Idle)
  }

  /** Does the operation end with a successful eviction, its own or a healing one?
      Then the references to the digest go too. */
  predicate Evicts(cfg: Config, env: Env, op: SlotOp, s: Slot) {
    var healing := HitEntry(env, s.files).Some? && HitFile(cfg, env, s.files).None? && Evict(env, s.files).1;
    match op
    case DoEvict => Evict(env, s.files).1
    case DoOpen(_) => healing
    case DoOpenStream(_) => healing
    case DoStreamThrough(_, _) => healing
    case DoOpenLazy(_) => healing && !cfg.verifyOnRead
    case _ => false
  }

  // ---------- operations on the whole cache ----------

  /** Which of a digest's files a directory removal took. */
  datatype Wipe = Wipe(blob: bool, partial: bool, tmp: bool, entry: bool)

  function Wiped(w: Wipe, f: Files): Files {
    Files(if w.blob then None else f.blob, if w.partial then None else f.partial,
          if w.tmp then None else f.tmp, if w.entry then None else f.entry)
  }

  /** The context of a prune ends before the entry `cancelledAt`, if there are so many;
      `stuck` are the reference files that its clean-up cannot remove. */
  datatype Op =
    | On(digest: Digest, env: Env, op: SlotOp)
    | DoPrune(entries: seq<Entry>, opts: Prune.Options, now: int, toRemove: set<Digest>, envs: Digest -> Env,
              stuck: string -> bool, cancelledAt: nat)
    | DoClear(wipes: Digest -> Wipe, wipedRefs: set<string>)
    | DoUpdateRef(ref: string, desc: Descriptor, now: int, saves: bool)

  /** The references after one eviction. */
  function DropRefs(evicted: bool, stuck: string -> bool, refs: map<string, RefEntry>,
                    d: Digest): map<string, RefEntry>
  {
    if evicted then map r | r in refs && (stuck(r) || refs[r].digest != d) :: refs[r] else refs
  }

  /** The references after the evictions of a prune. */
  function EvictedRefs(envs: Digest -> Env, evicted: set<Digest>, refs: map<string, RefEntry>): map<string, RefEntry> {
    map r | r in refs && (refs[r].digest in evicted ==> envs(refs[r].digest).stuck(r)) :: refs[r]
  }

  /** The references after the clean-up of a prune. */
  function KeptRefs(stuck: string -> bool, kept: set<Digest>, refs: map<string, RefEntry>): map<string, RefEntry> {
    map r | r in refs && (stuck(r) || refs[r].digest in kept) :: refs[r]
  }

  /** The entries a prune gets to. */
  function Done(entries: seq<Entry>, cancelledAt: nat): seq<Entry> {
    entries[..Min(cancelledAt, |entries|)]
  }

  /** The digests of `done` whose eviction succeeds. */
  ghost function EvictedOf(envs: Digest -> Env, done: seq<Entry>, toRemove: set<Digest>,
                           files: map<Digest, Files>): set<Digest>
  {
    set d <- Prune.Digests(done) | d in toRemove && Evict(envs(d), FilesAt(files, d)).1
  }

  ghost predicate Enabled(op: Op, c: Cache) {
    match op
    case On(d, _, slotOp) => Allowed(d, slotOp, At(c, d))
    case DoPrune(entries, opts, now, toRemove, _, _, _) =>
      && Prune.Loadable(entries) && Prune.Selects(entries, opts, now, toRemove)
      && (forall e <- entries :: At(c, e.digest).files.entry == Some(e))
      && (forall d <- toRemove :: At(c, d).session.Idle?)
    case DoClear(_, _) => forall d <- c.sessions :: c.sessions[d].Idle?
    case DoUpdateRef(_, _, _, _) => true
  }

  /** What an operation on the whole cache does to the files of one digest. */
  function WholeStep(op: Op, d: Digest, f: Files): Files
    requires !op.On?
  {
    match op
    case DoPrune(entries, _, _, toRemove, envs, _, cancelledAt) =>
      if d in toRemove && d in Prune.Digests(Done(entries, cancelledAt)) then Evict(envs(d), f).0 else f
    case DoClear(wipes, _) => Wiped(wipes(d), f)
    case DoUpdateRef(_, _, _, _) => f
  }

  /** What it does to the references. */
  ghost function WholeRefs(op: Op, files: map<Digest, Files>, refs: map<string, RefEntry>): map<string, RefEntry>
    requires !op.On?
  {
    match op
    case DoPrune(entries, _, _, toRemove, envs, stuck, cancelledAt) =>
      var left := EvictedRefs(envs, EvictedOf(envs, Done(entries, cancelledAt), toRemove, files), refs);
      if entries == [] || cancelledAt < |entries| then left
      else KeptRefs(stuck, Prune.Digests(entries) - toRemove, left)
    case DoClear(_, wipedRefs) => refs - wipedRefs
    case DoUpdateRef(ref, desc, now, saves) =>
      if saves then refs[ref := RefEntry(desc.digest, desc.size, now)] else refs
  }

  ghost function Step(cfg: Config, op: Op, c: Cache): Cache
    requires Enabled(op, c)
  {
    match op
    case On(d, env, slotOp) =>
      var s := SlotStep(cfg, env, slotOp, At(c, d));
      Cache(c.files[d := s.files], c.sessions[d := s.session],
            DropRefs(Evicts(cfg, env, slotOp, At(c, d)), env.stuck, c.refs, d))
    case _ =>
      c.(files := map d | d in c.files :: WholeStep(op, d, c.files[d]), refs := WholeRefs(op, c.files, c.refs))
  }

  /** A step, digest by digest. */
  lemma StepAt(cfg: Config, op: Op, c: Cache, d: Digest)
    requires Enabled(op, c)
    ensures At(Step(cfg, op, c), d) ==
      if !op.On? then At(c, d).(files := WholeStep(op, d, At(c, d).files))
      else if d == op.digest then SlotStep(cfg, op.env, op.op, At(c, d))
      else At(c, d)
  {
    if op.DoPrune? && d in op.toRemove && d in Prune.Digests(Done(op.entries, op.cancelledAt)) {
      var e :| e in Done(op.entries, op.cancelledAt) && e.digest == d;
      assert e in op.entries;
      assert d in c.files;
    }
  }

  /** The cache after each operation of a run; operations that are not enabled are
      not taken. */
  ghost function After(cfg: Config, c: Cache, ops: seq<Op>): Cache {
    if ops == [] then c
    else
      var before := After(cfg, c, ops[..|ops| - 1]);
      var op := ops[|ops| - 1];
      if Enabled(op, before) then Step(cfg, op, before) else before
  }

  // ---------- calls of the cache's methods are steps ----------

  /** A call that works on one digest: before it the digest is in session `session0`,
      afterwards in `session1`, and files and references change as in a step. */
  ghost predicate Acts(cfg: Config, env: Env, d: Digest, op: SlotOp,
                       session0: Session, files0: map<Digest, Files>, refs0: map<string, RefEntry>,
                       session1: Session, files1: map<Digest, Files>, refs1: map<string, RefEntry>)
  {
    var s := Slot(FilesAt(files0, d), session0);
    && Allowed(d, op, s)
    && files1 == files0[d := FilesAt(files1, d)]
    && Slot(FilesAt(files1, d), session1) == SlotStep(cfg, env, op, s)
    && refs1 == DropRefs(Evicts(cfg, env, op, s), env.stuck, refs0, d)
  }

  /** A call that works on the whole cache. */
  ghost predicate ActsOnAll(op: Op, files0: map<Digest, Files>, refs0: map<string, RefEntry>,
                            files1: map<Digest, Files>, refs1: map<string, RefEntry>)
  {
    && !op.On?
    && files1 == (map d | d in files0 :: WholeStep(op, d, files0[d]))
    && refs1 == WholeRefs(op, files0, refs0)
  }

  /** A call leads from one state of the cache to another. */
  ghost predicate Calls(cfg: Config, op: Op, c: Cache, after: Cache) {
    if op.On? then
      && Acts(cfg, op.env, op.digest, op.op, SessionAt(c.sessions, op.digest), c.files, c.refs,
              SessionAt(after.sessions, op.digest), after.files, after.refs)
      && after.sessions == c.sessions[op.digest := SessionAt(after.sessions, op.digest)]
    else
      Enabled(op, c) && ActsOnAll(op, c.files, c.refs, after.files, after.refs) && after.sessions == c.sessions
  }

  lemma CallsAreSteps(cfg: Config, op: Op, c: Cache, after: Cache)
    requires Calls(cfg, op, c, after)
    ensures Enabled(op, c) && Step(cfg, op, c) == after
  {
  }

  /** Every sequence of calls is a run, so that what holds of runs holds of it. */
  lemma {:induction false} CallsAreRuns(cfg: Config, ops: seq<Op>, states: seq<Cache>)
    requires |states| == |ops| + 1
    requires forall i {:trigger ops[i]} :: 0 <= i < |ops| ==> Calls(cfg, ops[i], states[i], states[i + 1])
    ensures After(cfg, states[0], ops) == states[|ops|]
  {
    if ops != [] {
      var n := |ops| - 1;
      forall i {:trigger ops[..n][i]} | 0 <= i < n
        ensures Calls(cfg, ops[..n][i], states[..n + 1][i], states[..n + 1][i + 1])
      {
        assert ops[..n][i] == ops[i];
      }
      CallsAreRuns(cfg, ops[..n], states[..n + 1]);
      assert Calls(cfg, ops[n], states[n], states[n + 1]);
      CallsAreSteps(cfg, ops[n], states[n], states[n + 1]);
    }
  }

  // ---------- every file at a final path hashes to its digest ----------

  ghost predicate SlotIntact(cfg: Config, d: Digest, s: Slot) {
    && Intact(cfg, d, s.files)
    && (s.session.LazySession? ==> s.session.handle.desc.digest == d)
    && (s.session.StreamSession? ==> s.session.reader.desc.digest == d)
  }

  ghost predicate AllIntact(cfg: Config, c: Cache) {
    forall d :: SlotIntact(cfg, d, At(c, d))
  }

  lemma StreamKeepsIntact(cfg: Config, env: Env, d: Digest, f: Files, r: Stream.Reader, n: nat)
    requires Intact(cfg, d, f) && r.desc.digest == d && r.pos <= |r.source.data|
    ensures Intact(cfg, d, Stream.Read(env.ok(WriteTmp), f, r, n).0)
    ensures Stream.Read(env.ok(WriteTmp), f, r, n).1.desc == r.desc
    ensures Intact(cfg, d, Stream.Close(cfg, env, f, r))
  {
  }

  lemma LazyKeepsIntact(cfg: Config, env: Env, d: Digest, f: Files, h: Lazy.Handle, off: int, len: int)
    requires Intact(cfg, d, f) && h.desc.digest == d
    ensures var o := Lazy.ReadAt(cfg, env, f, h, off, len);
      Intact(cfg, d, o.files) && o.handle.desc == h.desc
  {
  }

  lemma SlotKeepsIntact(cfg: Config, env: Env, d: Digest, op: SlotOp, s: Slot)
    requires Allowed(d, op, s) && SlotIntact(cfg, d, s)
    ensures SlotIntact(cfg, d, SlotStep(cfg, env, op, s))
  {
    match op
    case DoOpen(desc) => DownloadKeepsIntact(cfg, env, desc, s.files);
    case DoOpenStream(desc) => DownloadKeepsIntact(cfg, env, desc, s.files);
    case DoPrefetch(desc) => DownloadKeepsIntact(cfg, env, desc, s.files);
    case DoStreamRead(n) => StreamKeepsIntact(cfg, env, d, s.files, s.session.reader, n);
    case DoStreamClose => StreamKeepsIntact(cfg, env, d, s.files, s.session.reader, 0);
    case DoReadAt(off, len) => LazyKeepsIntact(cfg, env, d, s.files, s.session.handle, off, len);
    case _ =>
  }

  lemma WholeKeepsIntact(cfg: Config, op: Op, d: Digest, s: Slot)
    requires !op.On? && SlotIntact(cfg, d, s)
    ensures SlotIntact(cfg, d, s.(files := WholeStep(op, d, s.files)))
  {
  }

  lemma StepKeepsIntact(cfg: Config, op: Op, c: Cache)
    requires Enabled(op, c) && AllIntact(cfg, c)
    ensures AllIntact(cfg, Step(cfg, op, c))
  {
    forall d
      ensures SlotIntact(cfg, d, At(Step(cfg, op, c), d))
    {
      StepAt(cfg, op, c, d);
      assert SlotIntact(cfg, d, At(c, d));
      if !op.On? {
        WholeKeepsIntact(cfg, op, d, At(c, d));
      } else if d == op.digest {
        SlotKeepsIntact(cfg, op.env, d, op.op, At(c, d));
      }
    }
  }

  /** Over every run, with any registry answers and any failing file steps, whichever
      of the four paths published it: a blob file hashes to its digest. */
  lemma {:induction false} BlobsAlwaysIntact(cfg: Config, c: Cache, ops: seq<Op>)
    requires AllIntact(cfg, c)
    ensures AllIntact(cfg, After(cfg, c, ops))
  {
    if ops != [] {
      var before := After(cfg, c, ops[..|ops| - 1]);
      BlobsAlwaysIntact(cfg, c, ops[..|ops| - 1]);
      if Enabled(ops[|ops| - 1], before) {
        StepKeepsIntact(cfg, ops[|ops| - 1], before);
      }
    }
  }

  /** So however a client calls the cache, its handles and its readers, starting from
      an intact directory, no file at a final path is ever wrong. */
  lemma CallsPublishIntact(cfg: Config, ops: seq<Op>, states: seq<Cache>, d: Digest)
    requires |states| == |ops| + 1 && AllIntact(cfg, states[0])
    requires forall i {:trigger ops[i]} :: 0 <= i < |ops| ==> Calls(cfg, ops[i], states[i], states[i + 1])
    ensures Intact(cfg, d, FilesAt(states[|ops|].files, d))
  {
    CallsAreRuns(cfg, ops, states);
    BlobsAlwaysIntact(cfg, states[0], ops);
    assert SlotIntact(cfg, d, At(states[|ops|], d));
  }

  // ---------- entries and handles can always be worked with ----------

  /** What the methods of the cache and of a lazy handle ask for. */
  ghost predicate SlotUsable(s: Slot) {
    && Usable(s.files)
    && (s.session.LazySession? ==> Lazy.Usable(s.files, s.session.handle))
    && (s.session.StreamSession? ==> Stream.Teeing(s.files, s.session.reader))
  }

  ghost predicate ValidSize(op: SlotOp) {
    match op
    case DoOpen(desc) => desc.Valid()
    case DoOpenStream(desc) => desc.Valid()
    case DoPrefetch(desc) => desc.Valid()
    case DoOpenLazy(desc) => desc.Valid()
    case _ => true
  }

  lemma StreamOpenStaysUsable(cfg: Config, env: Env, desc: Descriptor, source: Stream.Source, f: Files)
    requires Usable(f)
    ensures var (f1, opening) := Stream.OpenStreamThrough(cfg, env, desc, source, f);
      Usable(f1) && (opening.Streaming? ==> Stream.Teeing(f1, opening.reader))
  {
  }

  lemma LazyOpenStaysUsable(cfg: Config, env: Env, desc: Descriptor, f: Files)
    requires Usable(f) && desc.Valid()
    ensures var (f1, opening) := Lazy.OpenLazy(cfg, env, desc, f);
      Usable(f1) && (opening.LazyOpened? ==> Lazy.Usable(f1, opening.handle))
  {
    assert Usable(Healed(env, f));
  }

  lemma SlotStaysUsable(cfg: Config, env: Env, d: Digest, op: SlotOp, s: Slot)
    requires Allowed(d, op, s) && SlotUsable(s) && ValidSize(op)
    ensures SlotUsable(SlotStep(cfg, env, op, s))
  {
    match op
    case DoOpen(desc) => DownloadStaysUsable(cfg, env, desc, s.files);
    case DoOpenStream(desc) => DownloadStaysUsable(cfg, env, desc, s.files);
    case DoPrefetch(desc) => DownloadStaysUsable(cfg, env, desc, s.files);
    case DoStreamThrough(desc, source) => StreamOpenStaysUsable(cfg, env, desc, source, s.files);
    case DoOpenLazy(desc) => LazyOpenStaysUsable(cfg, env, desc, s.files);
    case DoStreamRead(n) => Stream.ReadTees(env.ok(WriteTmp), s.files, s.session.reader, n);
    case DoReadAt(off, len) => Lazy.ReadStaysUsable(cfg, env, s.files, s.session.handle, off, len);
    case _ =>
  }

  ghost predicate AllUsable(c: Cache) {
    forall d :: SlotUsable(At(c, d))
  }

  lemma WholeStaysUsable(op: Op, d: Digest, s: Slot)
    requires !op.On? && SlotUsable(s)
    requires s.session.Idle? || WholeStep(op, d, s.files) == s.files
    ensures SlotUsable(s.(files := WholeStep(op, d, s.files)))
  {
  }

  lemma WholeRespectsSessions(op: Op, c: Cache, d: Digest)
    requires Enabled(op, c) && !op.On?
    ensures At(c, d).session.Idle? || WholeStep(op, d, At(c, d).files) == At(c, d).files
  {
  }

  lemma StepStaysUsable(cfg: Config, op: Op, c: Cache)
    requires Enabled(op, c) && AllUsable(c) && (op.On? ==> ValidSize(op.op))
    ensures AllUsable(Step(cfg, op, c))
  {
    forall d
      ensures SlotUsable(At(Step(cfg, op, c), d))
    {
      StepAt(cfg, op, c, d);
      assert SlotUsable(At(c, d));
      if !op.On? {
        WholeRespectsSessions(op, c, d);
        WholeStaysUsable(op, d, At(c, d));
      } else if d == op.digest {
        SlotStaysUsable(cfg, op.env, d, op.op, At(c, d));
      }
    }
  }

  /** Over every run with descriptors of int64 sizes, from an empty cache on. */
  lemma {:induction false} RunsStayUsable(cfg: Config, c: Cache, ops: seq<Op>)
    requires AllUsable(c)
    requires forall i | 0 <= i < |ops| && ops[i].On? :: ValidSize(ops[i].op)
    ensures AllUsable(After(cfg, c, ops))
  {
    if ops != [] {
      var before := After(cfg, c, ops[..|ops| - 1]);
      var op := ops[|ops| - 1];
      RunsStayUsable(cfg, c, ops[..|ops| - 1]);
      if Enabled(op, before) {
        StepStaysUsable(cfg, op, before);
      }
    }
  }

  // ---------- recorded bytes stay real ----------

  ghost predicate SlotTrue(d: Digest, s: Slot, blob: Blob) {
    && Truthful(s.files, blob)
    && (s.session.LazySession? ==>
        && s.session.handle.desc == Descriptor(d, |blob|)
        && Lazy.Faithful(s.files, s.session.handle, blob))
  }

  predicate AsksFor(op: SlotOp, size: int) {
    match op
    case DoOpen(desc) => desc.size == size
    case DoOpenStream(desc) => desc.size == size
    case DoPrefetch(desc) => desc.size == size
    case DoStreamThrough(desc, _) => desc.size == size
    case DoOpenLazy(desc) => desc.size == size
    case _ => true
  }

  /** The operation removes or renames the partial file of recorded progress and the
      entry stays. */
  ghost predicate SlotStrands(cfg: Config, env: Env, op: SlotOp, s: Slot)
    requires HasProgress(s.files) ==> s.files.partial.Some?
  {
    match op
    case DoOpen(desc) => DownloadStrands(cfg, env, desc, s.files)
    case DoOpenStream(desc) => DownloadStrands(cfg, env, desc, s.files)
    case DoPrefetch(desc) => DownloadStrands(cfg, env, desc, s.files)
    case DoStreamThrough(_, _) => StreamStrands(env, s.files)
    case DoEvict => EvictStrands(env, s.files)
    case DoReadAt(off, len) => s.session.LazySession? && ReadStrands(cfg, env, s.files, s.session.handle, off, len)
    case _ => false
  }

  lemma SlotTruth(cfg: Config, env: Env, d: Digest, op: SlotOp, s: Slot, blob: Blob)
    requires Allowed(d, op, s) && SlotTrue(d, s, blob)
    requires HonestRanges(env, blob) && AsksFor(op, |blob|)
    requires |blob| <= MAX_INT64 && cfg.hash(blob) == d
    ensures SlotTrue(d, SlotStep(cfg, env, op, s), blob) <==> !SlotStrands(cfg, env, op, s)
  {
    match op
    case DoOpen(desc) => OpenTruth(cfg, env, desc, s.files, blob);
    case DoOpenStream(desc) => OpenTruth(cfg, env, desc, s.files, blob);
    case DoPrefetch(desc) => OpenTruth(cfg, env, desc, s.files, blob);
    case DoStreamThrough(desc, source) => StreamOpenTruth(cfg, env, desc, source, s.files, blob);
    case DoStreamRead(n) => StreamTruth(cfg, env, s.files, s.session.reader, n, blob);
    case DoStreamClose => StreamTruth(cfg, env, s.files, s.session.reader, 0, blob);
    case DoOpenLazy(desc) => LazyOpenTruth(cfg, env, desc, s.files, blob);
    case DoReadAt(off, len) =>
      ReadTruth(cfg, env, s.files, s.session.handle, off, len, blob);
      Lazy.ReadRefines(cfg, env, s.files, s.session.handle, off, len, blob);
      Lazy.ReadCovers(cfg, env, s.files, s.session.handle, off, len);
    case DoLazyClose => LazyCloseTruth(env, s.files, s.session.handle, blob);
    case DoEvict => EvictTruth(env, s.files, blob);
  }

  ghost predicate Strands(cfg: Config, op: Op, c: Cache, d: Digest)
    requires Enabled(op, c)
    requires HasProgress(At(c, d).files) ==> At(c, d).files.partial.Some?
  {
    match op
    case On(e, env, slotOp) => e == d && SlotStrands(cfg, env, slotOp, At(c, d))
    case DoPrune(entries, _, _, toRemove, envs, _, cancelledAt) =>
      d in toRemove && d in Prune.Digests(Done(entries, cancelledAt)) && EvictStrands(envs(d), At(c, d).files)
    case DoClear(wipes, _) => HasProgress(At(c, d).files) && wipes(d).partial && !wipes(d).entry
    case DoUpdateRef(_, _, _, _) => false
  }

  /** Honest as far as one digest is concerned. */
  ghost predicate HonestFor(op: Op, d: Digest, blob: Blob) {
    op.On? && op.digest == d ==> HonestRanges(op.env, blob) && AsksFor(op.op, |blob|)
  }

  /** One step keeps the recorded bytes of a digest real exactly when it does not
      strand them. */
  lemma StepTruth(cfg: Config, op: Op, c: Cache, d: Digest, blob: Blob)
    requires Enabled(op, c) && SlotTrue(d, At(c, d), blob) && HonestFor(op, d, blob)
    requires |blob| <= MAX_INT64 && cfg.hash(blob) == d
    ensures SlotTrue(d, At(Step(cfg, op, c), d), blob) <==> !Strands(cfg, op, c, d)
  {
    StepAt(cfg, op, c, d);
    match op
    case On(e, env, slotOp) =>
      if e == d {
        SlotTruth(cfg, env, d, slotOp, At(c, d), blob);
      }
    case DoPrune(_, _, _, _, envs, _, _) =>
      EvictTruth(envs(d), At(c, d).files, blob);
    case DoClear(wipes, _) =>
    case DoUpdateRef(_, _, _, _) =>
  }

  /** No step of the run strands the digest's progress. */
  ghost predicate NeverStrands(cfg: Config, c: Cache, ops: seq<Op>, d: Digest, blob: Blob) {
    forall n {:trigger ops[n]} | 0 <= n < |ops| ::
      HonestFor(ops[n], d, blob)
      && var before := After(cfg, c, ops[..n]);
      (Enabled(ops[n], before) && SlotTrue(d, At(before, d), blob) ==> !Strands(cfg, ops[n], before, d))
  }

  /** Over every run with honest ranges that strands nothing, every byte in the
      entry of an unfinished blob, and every byte an open lazy handle counts as
      fetched, is the blob's byte in the partial file. */
  lemma {:induction false} RecordedBytesStayReal(cfg: Config, c: Cache, ops: seq<Op>, d: Digest, blob: Blob)
    requires SlotTrue(d, At(c, d), blob) && NeverStrands(cfg, c, ops, d, blob)
    requires |blob| <= MAX_INT64 && cfg.hash(blob) == d
    ensures SlotTrue(d, At(After(cfg, c, ops), d), blob)
  {
    if ops != [] {
      var n := |ops| - 1;
      forall i {:trigger ops[..n][i]} | 0 <= i < n
        ensures ops[..n][..i] == ops[..i] && ops[..n][i] == ops[i]
      {
      }
      RecordedBytesStayReal(cfg, c, ops[..n], d, blob);
      var before := After(cfg, c, ops[..n]);
      assert HonestFor(ops[n], d, blob);
      if Enabled(ops[n], before) {
        StepTruth(cfg, ops[n], before, d, blob);
      }
    }
  }

  // ---------- references ----------

  /** A prune that is neither cancelled nor resisted leaves of the loaded entries exactly
      the kept ones, untouched: none aged, within the size limit; of the others nothing
      but temp files is left. */
  lemma PruneLeavesKept(cfg: Config, op: Op, c: Cache, e: Entry)
    requires op.DoPrune? && Enabled(op, c)
    requires |op.entries| <= op.cancelledAt && forall d: Digest :: FilesOk(op.envs(d))
    requires e in op.entries
    ensures var before, after := At(c, e.digest), At(Step(cfg, op, c), e.digest);
      var kept := Prune.Without(op.entries, op.toRemove);
      && (e in kept ==> after == before)
      && (e !in kept ==> after.files == NO_FILES.(tmp := before.files.tmp))
      && (e in kept ==> !Prune.Aged(e, op.opts, op.now))
      && (op.opts.maxSize > 0 ==> Prune.Total(kept) <= op.opts.maxSize)
  {
    StepAt(cfg, op, c, e.digest);
    assert Done(op.entries, op.cancelledAt) == op.entries;
    Prune.KeptFit(op.entries, op.opts, op.now, op.toRemove, e);
    EvictOutcome(op.envs(e.digest), At(c, e.digest).files);
    RemovedIsEvicted(op, e, At(c, e.digest).files);
  }

  lemma RemovedIsEvicted(op: Op, e: Entry, f: Files)
    requires op.DoPrune? && |op.entries| <= op.cancelledAt && e in op.entries
    ensures WholeStep(op, e.digest, f) == if e.digest in op.toRemove then Evict(op.envs(e.digest), f).0 else f
  {
    assert Done(op.entries, op.cancelledAt) == op.entries;
  }

  /** Cancelled or not, a prune leaves no reference to what it evicted, unless the file
      resists; a cancelled one drops no other, and one that loads no entry drops none. */
  lemma PruneDropsEvictedRefs(cfg: Config, op: Op, c: Cache, r: string)
    requires op.DoPrune? && Enabled(op, c) && r in c.refs
    ensures var after := Step(cfg, op, c);
      var d := c.refs[r].digest;
      var evicted := d in EvictedOf(op.envs, Done(op.entries, op.cancelledAt), op.toRemove, c.files);
      && (evicted && !op.envs(d).stuck(r) ==> r !in after.refs)
      && (op.cancelledAt < |op.entries| && !evicted ==> r in after.refs && after.refs[r] == c.refs[r])
      && (op.entries == [] ==> r in after.refs && after.refs[r] == c.refs[r])
  {
  }

  /** After a prune that no reference file resists, every reference leads to an entry
      that is still stored; and every reference to a kept entry is still there. */
  lemma PrunedRefsResolve(cfg: Config, op: Op, c: Cache, r: string)
    requires op.DoPrune? && Enabled(op, c)
    requires op.entries != [] && |op.entries| <= op.cancelledAt
    ensures var after := Step(cfg, op, c);
      && (r in after.refs ==> r in c.refs && after.refs[r] == c.refs[r])
      && (r in after.refs && !op.stuck(r) ==>
            var d := after.refs[r].digest;
            At(after, d).files == At(c, d).files && At(after, d).files.entry.Some?)
      && (r in c.refs && c.refs[r].digest in Prune.Digests(op.entries) - op.toRemove ==> r in after.refs)
  {
    if r in c.refs {
      StepAt(cfg, op, c, c.refs[r].digest);
    }
  }

  /** time.Since(ValidatedAt) > ttl is a miss, as are a ttl that is not positive and a
      reference file that cannot be read. */
  function LookupByRef(refs: map<string, RefEntry>, ref: string, ttl: int, now: int,
                       readable: bool): Option<Descriptor>
  {
    if ttl <= 0 || ref !in refs || !readable || now - refs[ref].validatedAt > ttl then None
    else Some(Descriptor(refs[ref].digest, refs[ref].size))
  }

  /** After an eviction that no file resists, nothing hits the digest and no reference
      leads to it; lookups of other digests find what they found. */
  lemma EvictionForgets(cfg: Config, env: Env, env2: Env, c: Cache, d: Digest,
                        ref: string, ttl: int, now: int, readable: bool)
    requires Enabled(On(d, env, DoEvict), c)
    requires var f := At(c, d).files;
      && (f.blob.Some? ==> env.ok(EvictBlob)) && (f.partial.Some? ==> env.ok(EvictPartial))
      && (f.entry.Some? ==> env.ok(EvictEntry)) && !env.stuck(ref)
    ensures var after := Step(cfg, On(d, env, DoEvict), c);
      var before := LookupByRef(c.refs, ref, ttl, now, readable);
      var found := LookupByRef(after.refs, ref, ttl, now, readable);
      && HitEntry(env2, At(after, d).files) == None
      && found == if before.Some? && before.value.digest == d then None else before
  {
    EvictOutcome(env, At(c, d).files);
    StepAt(cfg, On(d, env, DoEvict), c, d);
  }

  /** An open that finds a complete entry without a file to stand for it evicts it, with
      the references that lead to it; no other open or part of a session touches any. */
  lemma HealingForgets(cfg: Config, env: Env, op: SlotOp, c: Cache, d: Digest, ref: string)
    requires Enabled(On(d, env, op), c) && !op.DoEvict? && ref in c.refs
    ensures var f := At(c, d).files;
      var after := Step(cfg, On(d, env, op), c);
      var opens := op.DoOpen? || op.DoOpenStream? || op.DoStreamThrough? || (op.DoOpenLazy? && !cfg.verifyOnRead);
      var broken := f.entry.Some? && f.entry.value.complete && f.entry.value.verified && !Stands(cfg, f);
      && (opens && broken && FilesOk(env) && c.refs[ref].digest == d && !env.stuck(ref) ==> ref !in after.refs)
      && (!opens || c.refs[ref].digest != d || (!broken && FilesOk(env)) ==>
            ref in after.refs && after.refs[ref] == c.refs[ref])
  {
    OnlyWhatStandsIsHit(cfg, env, At(c, d).files);
  }

  /** Does the step remove or replace a reference that points to `d`? */
  ghost predicate Forgets(cfg: Config, op: Op, c: Cache, ref: string, d: Digest)
    requires Enabled(op, c)
  {
    match op
    case On(e, env, slotOp) => e == d && Evicts(cfg, env, slotOp, At(c, e)) && !env.stuck(ref)
    case DoPrune(entries, _, _, toRemove, envs, stuck, cancelledAt) =>
      || (d in EvictedOf(envs, Done(entries, cancelledAt), toRemove, c.files) && !envs(d).stuck(ref))
      || (entries != [] && |entries| <= cancelledAt && d !in Prune.Digests(entries) - toRemove && !stuck(ref))
    case DoClear(_, wipedRefs) => ref in wipedRefs
    case DoUpdateRef(other, _, _, saves) => saves && other == ref
  }

  /** The update at position `n` of the run wrote this reference, and nothing later
      removed or replaced it. */
  ghost predicate WrittenAt(cfg: Config, c: Cache, ops: seq<Op>, ref: string, e: RefEntry, n: nat) {
    && n < |ops| && ops[n].DoUpdateRef? && ops[n].saves
    && ops[n].ref == ref && ops[n].desc.digest == e.digest && ops[n].desc.size == e.size && ops[n].now == e.validatedAt
    && forall k :: n < k < |ops| ==> LeavesAlone(cfg, c, ops, k, ref, e.digest)
  }

  /** The operation at position `k` of the run is not taken, or does not forget. */
  ghost predicate LeavesAlone(cfg: Config, c: Cache, ops: seq<Op>, k: nat, ref: string, d: Digest)
    requires k < |ops|
  {
    var before := After(cfg, c, ops[..k]);
    Enabled(ops[k], before) ==> !Forgets(cfg, ops[k], before, ref, d)
  }

  lemma LeavesAloneInPrefix(cfg: Config, c: Cache, ops: seq<Op>, k: nat, m: nat, ref: string, d: Digest)
    requires k < m <= |ops|
    ensures LeavesAlone(cfg, c, ops[..m], k, ref, d) <==> LeavesAlone(cfg, c, ops, k, ref, d)
  {
    assert ops[..m][..k] == ops[..k] && ops[..m][k] == ops[k];
  }

  /** A reference that one more step leaves alone keeps its origin. */
  lemma OriginStays(cfg: Config, c: Cache, ops: seq<Op>, ref: string, e: RefEntry, n: nat)
    requires ops != [] && WrittenAt(cfg, c, ops[..|ops| - 1], ref, e, n)
    requires LeavesAlone(cfg, c, ops, |ops| - 1, ref, e.digest)
    ensures WrittenAt(cfg, c, ops, ref, e, n)
  {
    var last := |ops| - 1;
    forall k: nat | n < k < |ops|
      ensures LeavesAlone(cfg, c, ops, k, ref, e.digest)
    {
      if k < last {
        LeavesAloneInPrefix(cfg, c, ops, k, last, ref, e.digest);
      }
    }
    assert ops[..last][n] == ops[n];
  }

  /** A reference that a step leaves behind without writing it was there before. */
  lemma RefWasThere(cfg: Config, op: Op, c: Cache, ref: string)
    requires Enabled(op, c) && ref in Step(cfg, op, c).refs
    requires !(op.DoUpdateRef? && op.saves && op.ref == ref)
    ensures ref in c.refs && c.refs[ref] == Step(cfg, op, c).refs[ref]
    ensures !Forgets(cfg, op, c, ref, c.refs[ref].digest)
  {
  }

  lemma {:induction false} RefHasOrigin(cfg: Config, c: Cache, ops: seq<Op>, ref: string)
    requires c.refs == map[] && ref in After(cfg, c, ops).refs
    ensures exists n: nat :: WrittenAt(cfg, c, ops, ref, After(cfg, c, ops).refs[ref], n)
  {
    if ops != [] {
      var last := |ops| - 1;
      var op := ops[last];
      var before := After(cfg, c, ops[..last]);
      var e := After(cfg, c, ops).refs[ref];
      if Enabled(op, before) && op.DoUpdateRef? && op.saves && op.ref == ref {
        assert WrittenAt(cfg, c, ops, ref, e, last);
      } else {
        if Enabled(op, before) {
          RefWasThere(cfg, op, before, ref);
        }
        RefHasOrigin(cfg, c, ops[..last], ref);
        var n: nat :| WrittenAt(cfg, c, ops[..last], ref, e, n);
        OriginStays(cfg, c, ops, ref, e, n);
      }
    }
  }

  /** A reference hit is never stale beyond its ttl: over every run from an empty
      index, it is what the latest saved update of that reference stored, at most
      `ttl` ago, and no eviction of its digest, no prune of it and no clear came
      between. */
  lemma BoundedStaleness(cfg: Config, c: Cache, ops: seq<Op>, ref: string, ttl: int, now: int, readable: bool)
    requires c.refs == map[] && LookupByRef(After(cfg, c, ops).refs, ref, ttl, now, readable).Some?
    ensures var hit := LookupByRef(After(cfg, c, ops).refs, ref, ttl, now, readable).value;
      exists n: nat, at: int :: now - ttl <= at && WrittenAt(cfg, c, ops, ref, RefEntry(hit.digest, hit.size, at), n)
  {
    RefHasOrigin(cfg, c, ops, ref);
    var e := After(cfg, c, ops).refs[ref];
    var n: nat :| WrittenAt(cfg, c, ops, ref, e, n);
    assert e == RefEntry(e.digest, e.size, e.validatedAt);
  }
}
