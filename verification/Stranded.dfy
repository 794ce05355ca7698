/** Recorded bytes that are not real, without a single failing file step: a lazy session
    reads one byte, the registry goes away, an eager Open tries and fails, and the next
    lazy session takes a byte it does not have for fetched. */
module Stranded {
  import opened Ranges
  import opened Disk
  import opened Download
  import opened CacheRuns
  import opened Truth
  import Lazy

  function Slice(blob: Blob, off: int, len: int): Blob {
    if 0 <= off && 0 < len && off + len <= |blob| then blob[off..off + len] else []
  }

  /** All file steps work, and the registry delivers what it is asked for. */
  function Up(blob: Blob): Env {
    Env(_ => true, BlobBody(blob, false), (off, len) => RangeBody(Slice(blob, off, len), false),
        _ => false, _ => false, 0)
  }

  /** All file steps work, and the registry answers nothing. */
  function Down(): Env {
    Env(_ => true, BlobError, (off, len) => RangeError(false), _ => false, _ => false, 0)
  }

  /** The first byte is recorded, and the blob is not finished. */
  ghost predicate FirstByteRecorded(f: Files) {
    && f.blob == None && f.entry.Some? && !f.entry.value.complete
    && Bytes(f.entry.value.ranges) == {0}
  }

  lemma LazySessionStarts(cfg: Config, desc: Descriptor, blob: Blob)
    requires !cfg.verifyOnRead && 0 <= desc.size
    ensures var (f, opening) := Lazy.OpenLazy(cfg, Up(blob), desc, NO_FILES);
      && opening == Lazy.LazyOpened(Lazy.Handle(desc, Lazy.NewEntry(desc, 0), Lazy.OnPartial, false))
      && f.blob == None && f.partial == Some(Truncate([], desc.size))
  {
  }

  lemma FetchesFirstByte(desc: Descriptor, blob: Blob, file: Blob)
    requires |file| == desc.size == |blob| >= 2
    ensures var p := FetchGaps(Up(blob), file, [], [Range(0, 1)]);
      && p.end == Fetched && Bytes(p.ranges) == {0}
      && |p.file| == desc.size && p.file[0..1] == [blob[0]]
  {
    var gap := Range(0, 1);
    var answer := Up(blob).range(0, 1);
    assert answer == RangeBody(blob[0..1], false);
    var one := FetchOne(Up(blob), file, [], gap);
    assert one == Progress(WriteAt(file, 0, blob[0..1]), Covering([], gap), Fetched, 1);
    assert [gap][1..] == [] && [gap][0] == gap;
    assert FetchGaps(Up(blob), one.file, one.ranges, []) == Progress(one.file, one.ranges, Fetched, 0);
    assert Bytes(one.ranges) == {0};
  }

  lemma FirstByteIsRead(cfg: Config, desc: Descriptor, blob: Blob, f: Files)
    requires desc.size == |blob| >= 2
    requires f.blob == None && f.partial == Some(Truncate([], desc.size))
    ensures var h := Lazy.Handle(desc, Lazy.NewEntry(desc, 0), Lazy.OnPartial, false);
      var o := Lazy.ReadAt(cfg, Up(blob), f, h, 0, 1);
      && FirstByteRecorded(o.files) && o.handle.entry.ranges == o.files.entry.value.ranges
      && !o.handle.entry.complete && !o.handle.closed
      && o.result == Lazy.ReadOk([blob[0]], false)
  {
    var h := Lazy.Handle(desc, Lazy.NewEntry(desc, 0), Lazy.OnPartial, false);
    var gap := Range(0, 1);
    var gaps := Lazy.Missing(h, 0, 1);
    assert Bytes([]) == {};
    assert Front([gap]) == [];
    assert Span(0, 1) == {0} && Bytes([gap]) == {0};
    assert Lazy.Wanted(desc, 0, 1) - Bytes(h.entry.ranges) == {0};
    RunsOfCanonical([gap]);
    assert gaps == [gap];
    FetchesFirstByte(desc, blob, f.partial.value);
    assert Lazy.GapFetch(Up(blob), f, h, 0, 1) == FetchGaps(Up(blob), f.partial.value, [], [gap]);
    assert 1 in Span(0, desc.size);
    assert !(Span(0, 1) <= {}) by {
      assert 0 in Span(0, 1);
    }
  }

  /** The failed Open removes the partial file and leaves the recorded byte. */
  lemma OpenWhileDownStrands(cfg: Config, desc: Descriptor, f: Files)
    requires FirstByteRecorded(f) && desc.size >= 2
    ensures var (f1, handle) := Open(cfg, Down(), desc, f);
      handle == None && HasProgress(f1) && f1.partial == None && 0 in Bytes(f1.entry.value.ranges)
  {
    var e := f.entry.value;
    assert Bytes([]) == {};
    if f.partial.Some? && ResumeGaps(e, desc) != [] {
      var gaps := ResumeGaps(e, desc);
      var p := FetchGaps(Down(), f.partial.value, e.ranges, gaps);
      assert p.end == FetchFailed && p.ranges == e.ranges;
    }
  }

  lemma AfterSnoc(cfg: Config, c: Cache, ops: seq<Op>, op: Op)
    ensures After(cfg, c, ops + [op]) ==
      var before := After(cfg, c, ops);
      if Enabled(op, before) then Step(cfg, op, before) else before
  {
    assert (ops + [op])[..|ops|] == ops;
  }

  function StrandingRun(desc: Descriptor, blob: Blob): seq<Op> {
    [On(desc.digest, Up(blob), DoOpenLazy(desc))]
    + [On(desc.digest, Up(blob), DoReadAt(0, 1))]
    + [On(desc.digest, Up(blob), DoLazyClose)]
    + [On(desc.digest, Down(), DoOpen(desc))]
  }

  lemma RunStrands(cfg: Config, desc: Descriptor, blob: Blob)
    requires !cfg.verifyOnRead && desc.size == |blob| >= 2
    ensures var s := At(After(cfg, EMPTY, StrandingRun(desc, blob)), desc.digest);
      s.session.Idle? && HasProgress(s.files) && s.files.partial == None && 0 in Bytes(s.files.entry.value.ranges)
  {
    var d := desc.digest;
    var op1 := On(d, Up(blob), DoOpenLazy(desc));
    var op2 := On(d, Up(blob), DoReadAt(0, 1));
    var op3 := On(d, Up(blob), DoLazyClose);
    var op4 := On(d, Down(), DoOpen(desc));

    AfterSnoc(cfg, EMPTY, [], op1);
    assert [] + [op1] == [op1];
    var c1 := Step(cfg, op1, EMPTY);
    LazySessionStarts(cfg, desc, blob);
    StepAt(cfg, op1, EMPTY, d);

    AfterSnoc(cfg, EMPTY, [op1], op2);
    var c2 := Step(cfg, op2, c1);
    FirstByteIsRead(cfg, desc, blob, At(c1, d).files);
    StepAt(cfg, op2, c1, d);

    AfterSnoc(cfg, EMPTY, [op1] + [op2], op3);
    var c3 := Step(cfg, op3, c2);
    StepAt(cfg, op3, c2, d);

    AfterSnoc(cfg, EMPTY, [op1] + [op2] + [op3], op4);
    OpenWhileDownStrands(cfg, desc, At(c3, d).files);
    StepAt(cfg, op4, c3, d);
  }

  /** From an empty cache, with every file step working: for every blob of two bytes or
      more that does not start with a zero, the run ends in a state whose recorded byte
      is untrue, and the next lazy handle reads a zero in its place without an error. */
  lemma LazyReadGoesWrong(cfg: Config, desc: Descriptor, blob: Blob)
    requires !cfg.verifyOnRead && desc.size == |blob| >= 2 && blob[0] != 0 && desc.Valid()
    ensures var f := At(After(cfg, EMPTY, StrandingRun(desc, blob)), desc.digest).files;
      var (f1, opening) := Lazy.OpenLazy(cfg, Up(blob), desc, f);
      && !Truthful(f, blob)
      && opening.LazyOpened?
      && Lazy.ReadAt(cfg, Up(blob), f1, opening.handle, 0, 1).result == Lazy.ReadOk([0], false)
      && Lazy.FileReadAt(Some(blob), 0, 1) == Lazy.ReadOk([blob[0]], false)
  {
    RunStrands(cfg, desc, blob);
    var f := At(After(cfg, EMPTY, StrandingRun(desc, blob)), desc.digest).files;
    StrandedIsUntrue(f, blob);
    StrandedProgressReadsZeros(cfg, Up(blob), Up(blob), desc, f, 0);
  }
}
