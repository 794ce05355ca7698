/** What the cache keeps on disk for one digest, the registry's answers, and the
    file steps that may fail (internal/cache/entry.go, internal/cache/cache.go). */
module Disk {
  import opened Ranges

  type byte = b: int | 0 <= b < 256
  type Blob = seq<byte>
  type Digest = string

  datatype Option<+T> = None | Some(value: T)

  /** The descriptor a caller asks for: the size is a non-negative int64. */
  datatype Descriptor = Descriptor(digest: Digest, size: int) {
    ghost predicate Valid() { 0 <= size <= MAX_INT64 }
  }

  datatype Entry = Entry(digest: Digest, size: int, complete: bool, verified: bool,
                         ranges: seq<Range>, lastAccessed: int)
  {
    predicate Done() { complete && verified }
  }

  /** `blob` stands at the final path, the others at `.partial`, `.tmp` and in the
      entries directory. */
  datatype Files = Files(blob: Option<Blob>, partial: Option<Blob>, tmp: Option<Blob>, entry: Option<Entry>)

  /** An entry the cache writes: recordable ranges, and complete only when verified. */
  ghost predicate Usable(f: Files) {
    f.entry.Some? ==> Recordable(f.entry.value.ranges) && (f.entry.value.complete ==> f.entry.value.verified)
  }

  const NO_FILES := Files(None, None, None, None)

  datatype Config = Config(hash: Blob -> Digest, verifyOnRead: bool)

  /** The file steps of one operation.  Each occurs at most once per operation. */
  datatype FileStep =
    | ReadEntry | RereadEntry | ReadNewEntry | TouchEntry | SaveEntry | SaveProgress
    | OpenBlob | OpenNewBlob | ReopenBlob
    | EvictBlob | EvictPartial | EvictEntry
    | DropPartial | DropStaleEntry | DropBadPartial | DropBadEntry
    | CreateTmp | WriteTmp | DrainTmp | SyncTmp | CloseTmp | RenameTmp | RemoveTmp
    | OpenPartial | StatPartial | TruncatePartial | SyncPartial | HashPartial | RenamePartial

  datatype BlobAnswer = BlobError | BlobBody(data: Blob, broken: bool)

  /** `broken`: the copy of the body to the file reported an error.  A short body
      also stands for a disk that took only part of it. */
  datatype RangeAnswer = RangeError(unsupported: bool) | RangeBody(data: Blob, broken: bool)

  /** Everything an operation meets that the cache does not control; `stuck` are the
      reference files that resist removal. */
  datatype Env = Env(
    ok: FileStep -> bool,
    blob: BlobAnswer,
    range: (int, int) -> RangeAnswer,
    cancelled: int -> bool,
    stuck: string -> bool,
    now: int)

  // ---------- file contents ----------

  function Min(a: int, b: int): int { if a < b then a else b }

  function Max2(a: int, b: int): int { if a < b then b else a }

  /** A write at an offset: a hole before it reads as zeros. */
  function WriteAt(file: Blob, offset: int, data: Blob): Blob {
    if data == [] || offset < 0 then file
    else
      seq(Max2(|file|, offset + |data|), i requires 0 <= i =>
        if offset <= i < offset + |data| then data[i - offset]
        else if i < |file| then file[i]
        else 0)
  }

  /** A write keeps what is outside its window, never shrinks the file, and leaves the
      data in the window. */
  lemma WriteAtWindow(file: Blob, offset: nat, data: Blob)
    ensures var written := WriteAt(file, offset, data);
      && |file| <= |written|
      && (forall b :: 0 <= b < |file| && !(offset <= b < offset + |data|) ==> written[b] == file[b])
      && (forall b :: |file| <= b < offset && b < |written| ==> written[b] == 0)
      && (data != [] ==> offset + |data| <= |written| && written[offset..offset + |data|] == data)
  {
  }

  function Truncate(file: Blob, size: nat): Blob {
    seq(size, i requires 0 <= i => if i < |file| then file[i] else 0)
  }

  function Prefix(data: Blob, n: int): Blob {
    if n <= 0 then [] else if |data| <= n then data else data[..n]
  }

  /** `file` holds the bytes of `blob` at all positions of `s`. */
  ghost predicate Agrees(file: Blob, blob: Blob, s: set<int>) {
    forall b :: b in s ==> 0 <= b < |file| && b < |blob| && file[b] == blob[b]
  }

  // ---------- registry ----------

  /** Every range body starts with the right bytes; it may be short or overlong,
      and any fetch may fail. */
  ghost predicate HonestRanges(env: Env, blob: Blob) {
    forall off, len {:trigger env.range(off, len)} ::
      0 <= off && 0 < len && off + len <= |blob| && env.range(off, len).RangeBody? ==>
        forall i :: 0 <= i < |env.range(off, len).data| && i < len ==> env.range(off, len).data[i] == blob[off + i]
  }

  ghost predicate AnswersRanges(env: Env, blob: Blob) {
    && HonestRanges(env, blob)
    && (forall off :: !env.cancelled(off))
    && (forall off, len {:trigger env.range(off, len)} ::
          0 <= off && 0 < len && off + len <= |blob| ==>
            env.range(off, len).RangeBody? && !env.range(off, len).broken && len <= |env.range(off, len).data|)
  }

  ghost predicate FilesOk(env: Env) {
    forall s :: env.ok(s)
  }

  // ---------- fetching gaps ----------

  datatype FetchEnd = Fetched | Cancelled | FetchFailed | RangesUnsupported | CopyFailed

  datatype Progress = Progress(file: Blob, ranges: seq<Range>, end: FetchEnd, fetched: int)

  ghost function Covering(ranges: seq<Range>, r: Range): seq<Range> {
    Runs(Bytes(ranges) + Span(r.offset, r.End()))
  }

  /** One round of the gap loop of resumeDownload and fetchMissingRanges. */
  ghost function FetchOne(env: Env, file: Blob, ranges: seq<Range>, g: Range): (p: Progress)
    ensures p.end == Fetched ==> p.ranges == Covering(ranges, g) && p.fetched == g.length
    ensures p.end != Fetched ==> p.ranges == ranges && p.fetched == 0
  {
    if env.cancelled(g.offset) then Progress(file, ranges, Cancelled, 0)
    else match env.range(g.offset, g.length)
      case RangeError(unsupported) =>
        Progress(file, ranges, if unsupported then RangesUnsupported else FetchFailed, 0)
      case RangeBody(data, broken) =>
        var written := WriteAt(file, g.offset, Prefix(data, g.length));
        if broken || g.offset < 0 || |Prefix(data, g.length)| != g.length then Progress(written, ranges, CopyFailed, 0)
        else Progress(written, Covering(ranges, g), Fetched, g.length)
  }

  /** The whole loop: it stops at the first gap that is not fetched. */
  ghost function FetchGaps(env: Env, file: Blob, ranges: seq<Range>, gaps: seq<Range>): Progress
    decreases |gaps|
  {
    if gaps == [] then Progress(file, ranges, Fetched, 0)
    else
      var one := FetchOne(env, file, ranges, gaps[0]);
      if one.end != Fetched then one
      else
        var rest := FetchGaps(env, one.file, one.ranges, gaps[1..]);
        rest.(fetched := rest.fetched + one.fetched)
  }

  lemma FetchNext(env: Env, file: Blob, ranges: seq<Range>, gaps: seq<Range>, i: nat)
    requires i < |gaps|
    ensures var one := FetchOne(env, file, ranges, gaps[i]);
      var rest := FetchGaps(env, one.file, one.ranges, gaps[i + 1..]);
      FetchGaps(env, file, ranges, gaps[i..]) ==
        if one.end != Fetched then one else rest.(fetched := rest.fetched + gaps[i].length)
  {
    assert gaps[i] == gaps[i..][0] && gaps[i..][1..] == gaps[i + 1..];
  }

  /** Whatever the registry answers, bytes outside the gaps keep their value. */
  lemma {:induction false} FetchFrame(env: Env, file: Blob, ranges: seq<Range>, gaps: seq<Range>)
    ensures var p := FetchGaps(env, file, ranges, gaps);
      && |file| <= |p.file|
      && ((forall g <- gaps :: g.End() <= |file|) ==> |p.file| == |file|)
      && forall b :: 0 <= b < |file| && b !in Bytes(gaps) ==> p.file[b] == file[b]
    decreases |gaps|
  {
    if gaps != [] {
      var one := FetchOne(env, file, ranges, gaps[0]);
      BytesCons(gaps);
      FetchFrame(env, one.file, one.ranges, gaps[1..]);
    }
  }

  lemma OneLength(env: Env, file: Blob, ranges: seq<Range>, g: Range, n: nat)
    requires |file| <= n && g.End() <= n
    ensures |FetchOne(env, file, ranges, g).file| <= n
  {
  }

  lemma {:induction false} FetchLength(env: Env, file: Blob, ranges: seq<Range>, gaps: seq<Range>, n: nat)
    requires |file| <= n && forall g <- gaps :: g.End() <= n
    ensures |FetchGaps(env, file, ranges, gaps).file| <= n
    decreases |gaps|
  {
    if gaps != [] {
      var one := FetchOne(env, file, ranges, gaps[0]);
      OneLength(env, file, ranges, gaps[0], n);
      FetchLength(env, one.file, one.ranges, gaps[1..], n);
    }
  }

  lemma HonestOne(env: Env, file: Blob, ranges: seq<Range>, g: Range, blob: Blob, s: set<int>)
    requires 0 <= g.offset && 0 < g.length && g.End() <= |blob|
    requires HonestRanges(env, blob) && Agrees(file, blob, s)
    ensures var one := FetchOne(env, file, ranges, g);
      && Agrees(one.file, blob, s)
      && (one.end == Fetched ==> Agrees(one.file, blob, Span(g.offset, g.End())))
  {
  }

  /** With honest range bodies no byte that was right becomes wrong, and every
      recorded byte is right. */
  lemma {:induction false} FetchAgrees(env: Env, file: Blob, ranges: seq<Range>, gaps: seq<Range>,
                                       blob: Blob, s: set<int>)
    requires forall g <- gaps :: 0 <= g.offset && 0 < g.length && g.End() <= |blob|
    requires HonestRanges(env, blob)
    requires Agrees(file, blob, s) && Agrees(file, blob, Bytes(ranges))
    ensures var p := FetchGaps(env, file, ranges, gaps);
      Agrees(p.file, blob, s) && Agrees(p.file, blob, Bytes(p.ranges))
    decreases |gaps|
  {
    if gaps != [] {
      var one := FetchOne(env, file, ranges, gaps[0]);
      HonestOne(env, file, ranges, gaps[0], blob, s);
      HonestOne(env, file, ranges, gaps[0], blob, Bytes(ranges));
      FetchAgrees(env, one.file, one.ranges, gaps[1..], blob, s);
    }
  }

  lemma {:induction false} FetchRecordable(env: Env, file: Blob, ranges: seq<Range>, gaps: seq<Range>)
    requires Recordable(ranges) && Recordable(gaps)
    ensures Recordable(FetchGaps(env, file, ranges, gaps).ranges)
    decreases |gaps|
  {
    if gaps != [] {
      var one := FetchOne(env, file, ranges, gaps[0]);
      CoveringRecordable(ranges, gaps[0]);
      FetchRecordable(env, one.file, one.ranges, gaps[1..]);
    }
  }

  lemma CoveringRecordable(ranges: seq<Range>, g: Range)
    requires Recordable(ranges) && 0 <= g.offset && 0 < g.length && g.End() <= MAX_INT64
    ensures Recordable(Covering(ranges, g))
  {
    RecordableBytes(ranges);
    CanonicalInside(Covering(ranges, g), MAX_INT64);
  }

  /** The fetch of a gap goes on and brings all of it, without an error. */
  predicate Answered(env: Env, g: Range) {
    && !env.cancelled(g.offset)
    && env.range(g.offset, g.length).RangeBody?
    && !env.range(g.offset, g.length).broken
    && g.length <= |env.range(g.offset, g.length).data|
  }

  /** Why a gap that is not answered stops the loop. */
  function Failure(env: Env, g: Range): FetchEnd {
    if env.cancelled(g.offset) then Cancelled
    else if env.range(g.offset, g.length).RangeBody? then CopyFailed
    else if env.range(g.offset, g.length).unsupported then RangesUnsupported
    else FetchFailed
  }

  /** The loop succeeds exactly when every gap is answered, and then the file holds the
      answers, whatever they are. */
  lemma {:induction false} FetchSucceedsIff(env: Env, file: Blob, ranges: seq<Range>, gaps: seq<Range>)
    requires forall g <- gaps :: 0 <= g.offset && 0 < g.length
    ensures FetchGaps(env, file, ranges, gaps).end == Fetched <==> forall g <- gaps :: Answered(env, g)
    decreases |gaps|
  {
    if gaps != [] {
      var one := FetchOne(env, file, ranges, gaps[0]);
      assert one.end == Fetched <==> Answered(env, gaps[0]);
      assert gaps == [gaps[0]] + gaps[1..];
      if one.end == Fetched {
        FetchSucceedsIff(env, one.file, one.ranges, gaps[1..]);
      }
    }
  }

  /** Otherwise it stops at the first gap that is not answered, for that gap's reason,
      and has recorded exactly the gaps before it. */
  lemma {:induction false} FetchStopsAtFirstFailure(env: Env, file: Blob, ranges: seq<Range>, gaps: seq<Range>, n: nat)
    requires forall g <- gaps :: 0 <= g.offset && 0 < g.length
    requires n < |gaps| && !Answered(env, gaps[n]) && forall k | 0 <= k < n :: Answered(env, gaps[k])
    ensures var p := FetchGaps(env, file, ranges, gaps);
      && p.end == Failure(env, gaps[n])
      && forall b :: b in Bytes(p.ranges) <==> b in Bytes(ranges) || b in Bytes(gaps[..n])
    decreases |gaps|
  {
    var one := FetchOne(env, file, ranges, gaps[0]);
    if n > 0 {
      assert Answered(env, gaps[0]);
      forall k | 0 <= k < n - 1
        ensures Answered(env, gaps[1..][k])
      {
        assert gaps[1..][k] == gaps[k + 1];
      }
      FetchStopsAtFirstFailure(env, one.file, one.ranges, gaps[1..], n - 1);
      BytesCons(gaps[..n]);
      assert gaps[..n][1..] == gaps[1..][..n - 1];
    }
  }

  lemma {:induction false} FetchedContent(env: Env, file: Blob, ranges: seq<Range>, gaps: seq<Range>, g: Range, i: nat)
    requires Canonical(gaps) && Within(Bytes(gaps), MAX_INT64) && g in gaps && i < g.length
    requires FetchGaps(env, file, ranges, gaps).end == Fetched
    ensures var p, answer := FetchGaps(env, file, ranges, gaps), env.range(g.offset, g.length);
      && 0 <= g.offset && g.End() <= |p.file| && answer.RangeBody? && g.length <= |answer.data|
      && p.file[g.offset + i] == answer.data[i]
    decreases |gaps|
  {
    CanonicalInside(gaps, MAX_INT64);
    CanonicalTail(gaps);
    BytesCons(gaps);
    var one := FetchOne(env, file, ranges, gaps[0]);
    assert gaps == [gaps[0]] + gaps[1..];
    if g in gaps[1..] {
      FetchedContent(env, one.file, one.ranges, gaps[1..], g, i);
    } else {
      assert g == gaps[0];
      FetchFrame(env, one.file, one.ranges, gaps[1..]);
      assert g.offset + i in Span(g.offset, g.End());
    }
  }

  /** What is recorded: nothing outside the gaps, and all of them exactly when
      every fetch succeeds. */
  lemma {:induction false} FetchCoverage(env: Env, file: Blob, ranges: seq<Range>, gaps: seq<Range>)
    requires Canonical(gaps) && Bytes(gaps) !! Bytes(ranges)
    ensures var p := FetchGaps(env, file, ranges, gaps);
      && (forall b :: b in Bytes(ranges) ==> b in Bytes(p.ranges))
      && (forall b :: b in Bytes(p.ranges) ==> b in Bytes(ranges) || b in Bytes(gaps))
      && (p.end == Fetched <==> forall b :: b in Bytes(gaps) ==> b in Bytes(p.ranges))
      && (p.ranges == ranges || Canonical(p.ranges))
    decreases |gaps|
  {
    if gaps != [] {
      var one := FetchOne(env, file, ranges, gaps[0]);
      BytesCons(gaps);
      RestStillMissing(ranges, gaps);
      assert gaps[0].offset in Bytes(gaps);
      if one.end == Fetched {
        FetchCoverage(env, one.file, one.ranges, gaps[1..]);
      }
    }
  }

  /** After the first of some disjoint gaps is recorded, the rest is still missing. */
  lemma RestStillMissing(ranges: seq<Range>, gaps: seq<Range>)
    requires Canonical(gaps) && gaps != [] && Bytes(gaps) !! Bytes(ranges)
    ensures 0 < gaps[0].length && Canonical(gaps[1..])
    ensures Bytes(ranges) !! Span(gaps[0].offset, gaps[0].End())
    ensures Bytes(gaps[1..]) !! Bytes(Covering(ranges, gaps[0]))
  {
    BytesCons(gaps);
    CanonicalTail(gaps);
    forall b | b in Bytes(gaps[1..])
      ensures b !in Bytes(Covering(ranges, gaps[0]))
    {
      assert b in Bytes(gaps);
    }
  }

  /** The fetched lengths add up to the growth of the coverage. */
  lemma {:induction false} FetchConserves(env: Env, file: Blob, ranges: seq<Range>, gaps: seq<Range>)
    requires Canonical(gaps) && Bytes(gaps) !! Bytes(ranges)
    ensures var p := FetchGaps(env, file, ranges, gaps);
      |Bytes(p.ranges)| == |Bytes(ranges)| + p.fetched
    decreases |gaps|
  {
    if gaps != [] {
      var one := FetchOne(env, file, ranges, gaps[0]);
      RestStillMissing(ranges, gaps);
      if one.end == Fetched {
        CoverageGrows(ranges, gaps[0]);
        FetchConserves(env, one.file, one.ranges, gaps[1..]);
        var rest := FetchGaps(env, one.file, one.ranges, gaps[1..]);
        assert |Bytes(rest.ranges)| == |Bytes(ranges)| + gaps[0].length + rest.fetched;
      }
    }
  }

  lemma CoverageGrows(ranges: seq<Range>, g: Range)
    requires Bytes(ranges) !! Span(g.offset, g.End()) && 0 <= g.length
    ensures |Bytes(Covering(ranges, g))| == |Bytes(ranges)| + g.length
  {
    SpanSize(g.offset, g.End());
    DisjointSize(Bytes(ranges), Span(g.offset, g.End()));
  }

  lemma DisjointSize(a: set<int>, b: set<int>)
    requires a !! b
    ensures |a + b| == |a| + |b|
  {
  }

  lemma {:induction false} FetchAnswered(env: Env, file: Blob, ranges: seq<Range>, gaps: seq<Range>, blob: Blob)
    requires forall g <- gaps :: 0 <= g.offset && 0 < g.length && g.End() <= |blob|
    requires AnswersRanges(env, blob)
    ensures FetchGaps(env, file, ranges, gaps).end == Fetched
    decreases |gaps|
  {
    if gaps != [] {
      var one := FetchOne(env, file, ranges, gaps[0]);
      FetchAnswered(env, one.file, one.ranges, gaps[1..], blob);
    }
  }
}
