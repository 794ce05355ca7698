/** Byte ranges of a partially downloaded blob (internal/cache/ranges.go and the
    window search of internal/cache/lazy_handle.go).

    The code works on lists of (offset, length) pairs; the specification is a set
    of byte positions.  `Runs` is the one canonical list of a set, and every
    operation is specified as `Runs` of a set expression. */
module Ranges {
  import opened Sorting

  const MAX_INT64: int := 0x7fff_ffff_ffff_ffff

  datatype Range = Range(offset: int, length: int) {
    function End(): int { offset + length }
  }

  /** The int64 that Go computes for the sum or difference `x` of two int64 values. */
  function Wrap64(x: int): int {
    if x > MAX_INT64 then x - 0x1_0000_0000_0000_0000
    else if x < -MAX_INT64 - 1 then x + 0x1_0000_0000_0000_0000
    else x
  }

  ghost predicate IsSpan(s: set<int>, lo: int, hi: int) {
    forall b :: b in s <==> lo <= b < hi
  }

  lemma {:induction false} SpanExists(lo: int, hi: int)
    ensures exists s :: IsSpan(s, lo, hi)
    decreases hi - lo
  {
    if hi <= lo {
      assert IsSpan({}, lo, hi);
    } else {
      SpanExists(lo, hi - 1);
      var rest :| IsSpan(rest, lo, hi - 1);
      assert IsSpan(rest + {hi - 1}, lo, hi);
    }
  }

  /** The positions lo, lo+1, ..., hi-1. */
  ghost function Span(lo: int, hi: int): (s: set<int>)
    ensures forall b :: b in s <==> lo <= b < hi
  {
    SpanExists(lo, hi);
    var s :| IsSpan(s, lo, hi);
    s
  }

  lemma {:induction false} SpanSize(lo: int, hi: int)
    ensures |Span(lo, hi)| == if lo <= hi then hi - lo else 0
    decreases hi - lo
  {
    if lo < hi {
      SpanSize(lo, hi - 1);
      assert Span(lo, hi) == Span(lo, hi - 1) + {hi - 1};
    } else {
      assert Span(lo, hi) == {};
    }
  }

  /** The positions that some range of the list covers. */
  ghost function Bytes(rs: seq<Range>): set<int> {
    if rs == [] then {} else Bytes(Front(rs)) + Span(Last(rs).offset, Last(rs).End())
  }

  ghost predicate Within(s: set<int>, n: int) {
    forall b :: b in s ==> 0 <= b < n
  }

  function Last(rs: seq<Range>): Range
    requires rs != []
  {
    rs[|rs| - 1]
  }

  function Front(rs: seq<Range>): seq<Range>
    requires rs != []
  {
    rs[..|rs| - 1]
  }

  /** A range the cache may record: not empty, and its end is an int64. */
  ghost predicate Recordable(rs: seq<Range>) {
    forall r <- rs :: 0 <= r.offset && 0 < r.length && r.End() <= MAX_INT64
  }

  /** Sorted by offset, no empty range, and at least one uncovered byte between
      neighbours. */
  ghost predicate Canonical(rs: seq<Range>) {
    rs == [] ||
    (&& Canonical(Front(rs))
     && 0 < Last(rs).length
     && (Front(rs) != [] ==> Last(Front(rs)).End() < Last(rs).offset))
  }

  lemma SetHasElement(s: set<int>)
    ensures s == {} || exists x :: x in s
  {
    if forall x :: x !in s {
      assert s == {};
    }
  }

  lemma SetHasMax(s: set<int>)
    requires s != {}
    ensures exists m :: m in s && forall x :: x in s ==> x <= m
  {
    SetHasElement(s);
    var e :| e in s;
    var rest := s - {e};
    if rest == {} {
      forall x | x in s
        ensures x <= e
      {
        assert x !in rest;
      }
    } else {
      SetHasMax(rest);
      var m :| m in rest && forall x :: x in rest ==> x <= m;
      var top := if m < e then e else m;
      assert top in s;
      forall x | x in s
        ensures x <= top
      {
        assert x == e || x in rest;
      }
    }
  }

  ghost function Max(s: set<int>): (m: int)
    requires s != {}
    ensures m in s && forall x :: x in s ==> x <= m
  {
    SetHasMax(s);
    var m :| m in s && forall x :: x in s ==> x <= m;
    m
  }

  /** A canonical list with one more byte after its end. */
  ghost function Push(rs: seq<Range>, m: int): seq<Range> {
    if rs != [] && Last(rs).End() == m then
      Front(rs) + [Range(Last(rs).offset, Last(rs).length + 1)]
    else
      rs + [Range(m, 1)]
  }

  lemma GrowSpan(before: set<int>, lo: int, hi: int)
    requires lo <= hi
    ensures before + Span(lo, hi + 1) == before + Span(lo, hi) + {hi}
  {
    assert Span(lo, hi + 1) == Span(lo, hi) + {hi};
  }

  lemma PushAddsByte(rs: seq<Range>, m: int)
    requires Canonical(rs)
    requires rs != [] ==> Last(rs).End() <= m
    ensures Canonical(Push(rs, m))
    ensures Bytes(Push(rs, m)) == Bytes(rs) + {m}
  {
    var p := Push(rs, m);
    if rs != [] && Last(rs).End() == m {
      assert Front(p) == Front(rs);
      GrowSpan(Bytes(Front(rs)), Last(rs).offset, m);
    } else {
      assert Front(p) == rs;
      assert Span(m, m + 1) == {m};
    }
  }

  lemma {:induction false} RunsExist(s: set<int>)
    ensures exists rs :: Canonical(rs) && Bytes(rs) == s
    decreases |s|
  {
    if s == {} {
      assert Canonical([]) && Bytes([]) == s;
    } else {
      RunsExist(s - {Max(s)});
      var before :| Canonical(before) && Bytes(before) == s - {Max(s)};
      LastByte(before);
      PushAddsByte(before, Max(s));
    }
  }

  /** The canonical list of a set of positions; `CanonicalUnique` below shows that
      there is only one. */
  ghost function Runs(s: set<int>): (rs: seq<Range>)
    ensures Canonical(rs)
    ensures Bytes(rs) == s
    ensures rs == [] <==> s == {}
  {
    RunsExist(s);
    var rs :| Canonical(rs) && Bytes(rs) == s;
    LastByte(rs);
    rs
  }

  /** The last byte of a canonical list is its greatest. */
  lemma {:induction false} LastByte(rs: seq<Range>)
    requires Canonical(rs)
    ensures rs != [] ==> Last(rs).End() - 1 in Bytes(rs)
    ensures rs != [] ==> forall b :: b in Bytes(rs) ==> b < Last(rs).End()
  {
    if rs != [] {
      LastByte(Front(rs));
    }
  }

  /** The byte before the last range is not covered. */
  lemma LastIsMaximal(rs: seq<Range>)
    requires Canonical(rs) && rs != []
    ensures Bytes(Front(rs)) == Bytes(rs) - Span(Last(rs).offset, Last(rs).End())
    ensures Last(rs).offset - 1 !in Bytes(rs)
  {
    LastByte(Front(rs));
  }

  /** Two canonical lists that cover the same bytes are the same list. */
  lemma {:induction false} CanonicalUnique(a: seq<Range>, b: seq<Range>)
    requires Canonical(a) && Canonical(b)
    requires Bytes(a) == Bytes(b)
    ensures a == b
    decreases |a|
  {
    LastByte(a);
    LastByte(b);
    if a != [] && b != [] {
      LastIsMaximal(a);
      LastIsMaximal(b);
      var r, q := Last(a), Last(b);
      assert r.End() == q.End();
      assert r.offset == q.offset by {
        assert r.offset < q.offset ==> q.offset - 1 in Span(r.offset, r.End());
        assert q.offset < r.offset ==> r.offset - 1 in Span(q.offset, q.End());
      }
      CanonicalUnique(Front(a), Front(b));
      assert a == Front(a) + [r] && b == Front(b) + [q];
    }
  }

  /** `Runs` is determined by the set alone, so it recognises any canonical list. */
  lemma RunsOfCanonical(rs: seq<Range>)
    requires Canonical(rs)
    ensures Runs(Bytes(rs)) == rs
  {
    CanonicalUnique(Runs(Bytes(rs)), rs);
  }

  /** Only which ranges occur matters for the covered bytes, not their order. */
  lemma {:induction false} BytesMember(rs: seq<Range>, b: int)
    ensures b in Bytes(rs) <==> exists r :: r in rs && r.offset <= b < r.End()
  {
    if rs != [] {
      BytesMember(Front(rs), b);
      assert rs == Front(rs) + [Last(rs)];
    }
  }

  lemma SameElementsSameBytes(a: seq<Range>, b: seq<Range>)
    requires forall r :: r in a <==> r in b
    ensures Bytes(a) == Bytes(b)
  {
    forall x
      ensures x in Bytes(a) <==> x in Bytes(b)
    {
      BytesMember(a, x);
      BytesMember(b, x);
    }
  }

  lemma BytesSnoc(rs: seq<Range>, r: Range)
    ensures Bytes(rs + [r]) == Bytes(rs) + Span(r.offset, r.End())
  {
    assert Front(rs + [r]) == rs;
  }

  lemma {:induction false} RecordableBytes(rs: seq<Range>)
    requires Recordable(rs)
    ensures Within(Bytes(rs), MAX_INT64)
  {
    if rs != [] {
      RecordableBytes(Front(rs));
    }
  }

  /** The two steps of the merge loop: the next range joins the current one, or
      starts a new one. */
  lemma JoinCurrent(merged: seq<Range>, current: Range, next: Range)
    requires Canonical(merged + [current])
    requires current.offset <= next.offset <= current.End() && 0 < next.length
    ensures var joined :=
        if next.End() > current.End() then current.(length := next.End() - current.offset) else current;
      && Canonical(merged + [joined])
      && Bytes(merged + [joined]) == Bytes(merged + [current]) + Span(next.offset, next.End())
  {
    var joined := if next.End() > current.End() then current.(length := next.End() - current.offset) else current;
    assert Front(merged + [current]) == merged == Front(merged + [joined]);
  }

  lemma StartNext(merged: seq<Range>, next: Range)
    requires Canonical(merged) && 0 < next.length
    requires merged != [] ==> Last(merged).End() < next.offset
    ensures Canonical(merged + [next])
    ensures Bytes(merged + [next]) == Bytes(merged) + Span(next.offset, next.End())
  {
    assert Front(merged + [next]) == merged;
  }

  method MergeRanges(ranges: seq<Range>) returns (merged: seq<Range>)
    requires Recordable(ranges)
    ensures merged == Runs(Bytes(ranges))
    ensures Recordable(merged)
  {
    if |ranges| == 0 {
      return [];
    }
    var sorted := Sort((r: Range) => r.offset, ranges);
    SameElements(sorted, ranges);

    merged := [];
    var current := sorted[0];
    StartNext([], current);
    assert sorted[..1] == [] + [current];
    for i := 1 to |sorted|
      invariant Canonical(merged + [current])
      invariant Bytes(merged + [current]) == Bytes(sorted[..i])
      invariant current.offset <= sorted[i - 1].offset
    {
      var next := sorted[i];
      assert sorted[i] in sorted && sorted[i - 1].offset <= sorted[i].offset;
      assert sorted[..i + 1] == sorted[..i] + [next];
      BytesSnoc(sorted[..i], next);
      if next.offset <= current.End() {
        JoinCurrent(merged, current, next);
        if next.End() > current.End() {
          current := current.(length := next.End() - current.offset);
        }
      } else {
        merged := merged + [current];
        StartNext(merged, next);
        current := next;
      }
    }
    merged := merged + [current];

    assert sorted[..|sorted|] == sorted;
    SameElementsSameBytes(sorted, ranges);
    RunsOfCanonical(merged);
    RecordableBytes(ranges);
    CanonicalInside(merged, MAX_INT64);
  }

  method AddRange(ranges: seq<Range>, newRange: Range) returns (merged: seq<Range>)
    requires Recordable(ranges + [newRange])
    ensures merged == Runs(Bytes(ranges) + Span(newRange.offset, newRange.End()))
    ensures Recordable(merged)
  {
    BytesSnoc(ranges, newRange);
    merged := MergeRanges(ranges + [newRange]);
  }

  lemma {:induction false} CanonicalPrefix(rs: seq<Range>, n: nat)
    requires Canonical(rs) && n <= |rs|
    ensures Canonical(rs[..n])
    ensures Bytes(rs[..n]) <= Bytes(rs)
  {
    if n < |rs| {
      CanonicalPrefix(Front(rs), n);
      assert Front(rs)[..n] == rs[..n];
    } else {
      assert rs[..n] == rs;
    }
  }

  /** One more range of a canonical list: its bytes are new, and lie beyond the
      byte after the previous range. */
  lemma NextRange(rs: seq<Range>, n: nat)
    requires Canonical(rs) && n < |rs|
    ensures Canonical(rs[..n]) && Canonical(rs[..n + 1])
    ensures 0 < rs[n].length
    ensures n > 0 ==> rs[n - 1].End() < rs[n].offset
    ensures Bytes(rs[..n + 1]) == Bytes(rs[..n]) + Span(rs[n].offset, rs[n].End())
    ensures Bytes(rs[..n]) !! Span(rs[n].offset, rs[n].End())
  {
    CanonicalPrefix(rs, n);
    CanonicalPrefix(rs, n + 1);
    assert Front(rs[..n + 1]) == rs[..n];
    LastByte(rs[..n]);
  }

  /** Before the first range of a canonical list, and right after each of its
      ranges, there is an uncovered byte. */
  lemma {:induction false} EndUncovered(rs: seq<Range>, n: nat)
    requires Canonical(rs) && n < |rs|
    ensures rs[n].End() !in Bytes(rs)
  {
    LastByte(rs);
    if n < |rs| - 1 {
      EndUncovered(Front(rs), n);
      LastByte(Front(rs));
      NextRange(rs, n);
      RangeOrder(rs, n, |rs| - 1);
    }
  }

  lemma {:induction false} RangeOrder(rs: seq<Range>, i: nat, j: nat)
    requires Canonical(rs) && i < j < |rs|
    ensures rs[i].End() < rs[j].offset
  {
    NextRange(rs, j);
    if i < j - 1 {
      RangeOrder(rs, i, j - 1);
      NextRange(rs, j - 1);
    }
  }

  lemma SubsetSize(a: set<int>, b: set<int>)
    requires a <= b
    ensures |a| <= |b|
    ensures |a| == |b| ==> a == b
  {
    assert b == a + (b - a);
    if |b - a| == 0 {
      assert b - a == {};
    }
  }

  lemma CoverageBound(rs: seq<Range>)
    requires Recordable(rs)
    ensures |Bytes(rs)| <= MAX_INT64
  {
    RecordableBytes(rs);
    SubsetSize(Bytes(rs), Span(0, MAX_INT64));
    SpanSize(0, MAX_INT64);
  }

  lemma CoverageStep(rs: seq<Range>, n: nat)
    requires Canonical(rs) && n < |rs|
    ensures |Bytes(rs[..n + 1])| == |Bytes(rs[..n])| + rs[n].length
  {
    NextRange(rs, n);
    SpanSize(rs[n].offset, rs[n].End());
  }

  method TotalCoverage(ranges: seq<Range>) returns (total: int)
    requires Recordable(ranges)
    ensures total == |Bytes(ranges)| <= MAX_INT64
  {
    CoverageBound(ranges);
    if |ranges| == 0 {
      return 0;
    }
    var merged := MergeRanges(ranges);
    total := 0;
    for i := 0 to |merged|
      invariant total == |Bytes(merged[..i])|
    {
      CoverageStep(merged, i);
      total := total + merged[i].length;
    }
    assert merged[..|merged|] == merged;
  }

  /** Where a search for gaps in `[0, totalSize)` ends: ranges that start past
      `totalSize` push it further. */
  ghost function Horizon(ranges: seq<Range>, totalSize: int): int {
    if Bytes(ranges) != {} && Max(Bytes(ranges)) + 1 > totalSize then Max(Bytes(ranges)) + 1 else totalSize
  }

  /** `gaps` is the canonical list of the bytes below `pos` outside `seen`, and
      `pos` itself follows a seen byte. */
  ghost predicate GapsBelow(gaps: seq<Range>, pos: int, seen: set<int>) {
    && 0 <= pos
    && Canonical(gaps)
    && (gaps != [] ==> Last(gaps).End() < pos)
    && (forall b :: b in seen ==> b < pos)
    && Bytes(gaps) == Span(0, pos) - seen
  }

  lemma GapBefore(gaps: seq<Range>, pos: int, seen: set<int>, r: Range)
    requires GapsBelow(gaps, pos, seen)
    requires pos <= r.offset && 0 < r.length
    ensures var g := if r.offset > pos then gaps + [Range(pos, r.offset - pos)] else gaps;
      GapsBelow(g, r.End(), seen + Span(r.offset, r.End()))
  {
    if r.offset > pos {
      StartNext(gaps, Range(pos, r.offset - pos));
    }
  }

  lemma GapAtEnd(gaps: seq<Range>, pos: int, seen: set<int>, end: int)
    requires GapsBelow(gaps, pos, seen) && pos < end
    ensures Canonical(gaps + [Range(pos, end - pos)])
    ensures Bytes(gaps + [Range(pos, end - pos)]) == Span(0, end) - seen
  {
    StartNext(gaps, Range(pos, end - pos));
  }

  lemma HorizonReached(ranges: seq<Range>, merged: seq<Range>, totalSize: int)
    requires Canonical(merged) && merged != [] && Bytes(merged) == Bytes(ranges)
    ensures Horizon(ranges, totalSize) == if Last(merged).End() < totalSize then totalSize else Last(merged).End()
  {
    LastByte(merged);
  }

  /** The gaps that a search in `[0, totalSize)` finds. */
  ghost function Gaps(ranges: seq<Range>, totalSize: int): seq<Range> {
    if totalSize <= 0 then [] else Runs(Span(0, Horizon(ranges, totalSize)) - Bytes(ranges))
  }

  method FindGaps(ranges: seq<Range>, totalSize: int) returns (gaps: seq<Range>)
    requires Recordable(ranges)
    ensures gaps == Gaps(ranges, totalSize)
  {
    if totalSize <= 0 {
      return [];
    }
    gaps := [];
    if |ranges| == 0 {
      GapAtEnd([], 0, {}, totalSize);
      gaps := [Range(0, totalSize)];
      assert gaps == [] + [Range(0, totalSize)];
      RunsOfCanonical(gaps);
      return;
    }
    var merged := MergeRanges(ranges);
    var pos := 0;
    for i := 0 to |merged|
      invariant pos == if i == 0 then 0 else merged[i - 1].End()
      invariant GapsBelow(gaps, pos, Bytes(merged[..i]))
    {
      var r := merged[i];
      NextRange(merged, i);
      assert r in merged;
      GapBefore(gaps, pos, Bytes(merged[..i]), r);
      if r.offset > pos {
        gaps := gaps + [Range(pos, r.offset - pos)];
      }
      if r.End() > pos {
        pos := r.End();
      }
    }
    assert merged[..|merged|] == merged;
    assert Last(ranges) in ranges && Last(ranges).offset in Bytes(ranges);
    HorizonReached(ranges, merged, totalSize);
    if pos < totalSize {
      GapAtEnd(gaps, pos, Bytes(merged), totalSize);
      gaps := gaps + [Range(pos, totalSize - pos)];
    }
    RunsOfCanonical(gaps);
  }

  lemma RunsDetermineSet(s: set<int>, t: set<int>)
    ensures Runs(s) == Runs(t) <==> s == t
  {
    if Runs(s) == Runs(t) {
      assert Bytes(Runs(s)) == Bytes(Runs(t));
    }
  }

  /** The gaps found are the complement inside `[0, totalSize)` exactly when no merged
      range starts beyond `totalSize`, or nothing is searched. */
  lemma GapsStayInsideIff(ranges: seq<Range>, totalSize: int)
    requires Recordable(ranges)
    ensures Gaps(ranges, totalSize) == Runs(Span(0, totalSize) - Bytes(ranges)) <==>
      totalSize <= 0 || forall r <- Runs(Bytes(ranges)) :: r.offset <= totalSize
  {
    if totalSize <= 0 {
      assert Span(0, totalSize) - Bytes(ranges) == {};
    } else {
      var found, inside := Span(0, Horizon(ranges, totalSize)) - Bytes(ranges), Span(0, totalSize) - Bytes(ranges);
      RunsDetermineSet(found, inside);
      RecordableBytes(ranges);
      if r :| r in Runs(Bytes(ranges)) && r.offset > totalSize {
        StartUncovered(Runs(Bytes(ranges)), r);
        assert r.offset - 1 in found && r.offset - 1 !in inside;
      } else {
        var merged := Runs(Bytes(ranges));
        if merged != [] {
          HorizonReached(ranges, merged, totalSize);
          forall b | totalSize <= b < Horizon(ranges, totalSize)
            ensures b in Bytes(ranges)
          {
            CoveredToTheEnd(merged, totalSize, b);
          }
        }
        assert found == inside;
      }
    }
  }

  /** Before each range of a canonical list there is an uncovered byte. */
  lemma StartUncovered(rs: seq<Range>, r: Range)
    requires Canonical(rs) && r in rs
    ensures r.offset in Bytes(rs) && r.offset - 1 !in Bytes(rs)
  {
    var n :| 0 <= n < |rs| && rs[n] == r;
    NextRange(rs, n);
    RangeCovers(rs, n);
    assert r.offset in Span(r.offset, r.End());
    if r.offset - 1 in Bytes(rs) {
      IndexOf(rs, r.offset - 1);
      var i :| 0 <= i < |rs| && rs[i].offset <= r.offset - 1 < rs[i].End();
      if i < n {
        RangeOrder(rs, i, n);
      } else if n < i {
        RangeOrder(rs, n, i);
      }
    }
  }

  /** If no range starts beyond `size`, the list covers everything from there to its
      last byte. */
  lemma CoveredToTheEnd(rs: seq<Range>, size: int, b: int)
    requires rs != [] && forall r <- rs :: r.offset <= size
    requires size <= b < Last(rs).End()
    ensures b in Bytes(rs)
  {
    assert Last(rs) in rs;
    assert b in Span(Last(rs).offset, Last(rs).End());
  }

  /** A range beyond the total size: the gap before it is found whole. */
  lemma GapPastTheEnd()
    ensures Gaps([Range(10, 5)], 5) == [Range(0, 10)]
  {
    var rs := [Range(10, 5)];
    assert Bytes(rs) == Span(10, 15) by {
      assert Front(rs) == [];
    }
    assert 14 in Bytes(rs) && Max(Bytes(rs)) == 14;
    assert Front([Range(0, 10)]) == [];
    assert Bytes([Range(0, 10)]) == Span(0, 10);
    assert Span(0, 15) - Bytes(rs) == Span(0, 10);
    RunsOfCanonical([Range(0, 10)]);
  }

  /** Complete means: exactly the positions 0 .. totalSize-1 are covered. */
  method IsComplete(ranges: seq<Range>, totalSize: int) returns (complete: bool)
    requires Recordable(ranges)
    ensures complete <==> 0 <= totalSize && Bytes(ranges) == Span(0, totalSize)
  {
    var covered := TotalCoverage(ranges);
    var gaps := FindGaps(ranges, totalSize);
    complete := covered == totalSize && |gaps| == 0;
    SpanSize(0, totalSize);
    if complete {
      if 0 < totalSize {
        assert Span(0, Horizon(ranges, totalSize)) - Bytes(ranges) == {};
        forall b | b in Span(0, totalSize)
          ensures b in Bytes(ranges)
        {
          assert b !in Span(0, Horizon(ranges, totalSize)) - Bytes(ranges);
        }
      }
      SubsetSize(Span(0, totalSize), Bytes(ranges));
    } else if Bytes(ranges) == Span(0, totalSize) {
      RunsOfCanonical([]);
    }
  }

  /** A single merged range answers for every byte of the window.  A window whose end
      wraps around passes as soon as any byte up to its start is covered. */
  method ContainsRange(ranges: seq<Range>, offset: int, length: int) returns (found: bool)
    requires Recordable(ranges)
    requires 0 < length <= MAX_INT64 && -MAX_INT64 - 1 <= offset <= MAX_INT64
    ensures offset + length <= MAX_INT64 ==> (found <==> Span(offset, offset + length) <= Bytes(ranges))
    ensures offset + length > MAX_INT64 ==> (found <==> exists b :: b in Bytes(ranges) && b <= offset)
  {
    if |ranges| == 0 {
      assert offset in Span(offset, offset + length);
      return false;
    }
    var merged := MergeRanges(ranges);
    var end := Wrap64(offset + length);
    for i := 0 to |merged|
      invariant forall k | 0 <= k < i :: !(merged[k].offset <= offset && merged[k].End() >= end)
    {
      if merged[i].offset <= offset && merged[i].End() >= end {
        RangeCovers(merged, i);
        NextRange(merged, i);
        assert merged[i].offset in Span(merged[i].offset, merged[i].End());
        return true;
      }
    }
    if offset + length <= MAX_INT64 {
      WindowInOneRange(merged, offset, end);
    } else if b :| b in Bytes(ranges) && b <= offset {
      IndexOf(merged, b);
      RecordableBytes(ranges);
    }
    found := false;
  }

  lemma RangeCovers(rs: seq<Range>, n: nat)
    requires Canonical(rs) && n < |rs|
    ensures Span(rs[n].offset, rs[n].End()) <= Bytes(rs)
  {
    NextRange(rs, n);
    CanonicalPrefix(rs, n + 1);
  }

  lemma WindowInOneRange(rs: seq<Range>, lo: int, hi: int)
    requires Canonical(rs) && lo < hi
    ensures Span(lo, hi) <= Bytes(rs) ==> exists i :: 0 <= i < |rs| && rs[i].offset <= lo && hi <= rs[i].End()
  {
    if Span(lo, hi) <= Bytes(rs) {
      assert lo in Bytes(rs);
      IndexOf(rs, lo);
      var i :| 0 <= i < |rs| && rs[i].offset <= lo < rs[i].End();
      EndUncovered(rs, i);
      assert rs[i].End() !in Span(lo, hi);
    }
  }

  lemma IndexOf(rs: seq<Range>, b: int)
    requires b in Bytes(rs)
    ensures exists i :: 0 <= i < |rs| && rs[i].offset <= b < rs[i].End()
  {
    BytesMember(rs, b);
    var r :| r in rs && r.offset <= b < r.End();
    var i :| 0 <= i < |rs| && rs[i] == r;
  }

  /** The uncovered bytes of the window [offset, offset + length), whatever lies
      outside it. */
  method FindGapsInRange(ranges: seq<Range>, offset: int, length: int) returns (result: seq<Range>)
    requires Recordable(ranges)
    requires length <= MAX_INT64 && -MAX_INT64 - 1 <= offset <= MAX_INT64
    ensures result ==
      if offset + length <= MAX_INT64 then Runs(Span(if offset < 0 then 0 else offset, offset + length) - Bytes(ranges))
      else []
  {
    if length <= 0 {
      return [];
    }
    var end := Wrap64(offset + length);
    var gaps := FindGaps(ranges, end);
    result := [];
    for i := 0 to |gaps|
      invariant ClippedTo(result, gaps[..i], offset, end)
    {
      var gap := gaps[i];
      NextRange(gaps, i);
      var gapEnd := gap.offset + gap.length;
      if gap.offset >= end || gapEnd <= offset {
        ClipNone(result, gaps, i, offset, end);
        continue;
      }
      var clippedStart := gap.offset;
      if clippedStart < offset {
        clippedStart := offset;
      }
      var clippedEnd := gapEnd;
      if clippedEnd > end {
        clippedEnd := end;
      }
      if clippedEnd > clippedStart {
        ClipSome(result, gaps, i, offset, end, Range(clippedStart, clippedEnd - clippedStart));
        result := result + [Range(clippedStart, clippedEnd - clippedStart)];
      }
    }
    assert gaps[..|gaps|] == gaps;
    WindowOfGaps(ranges, gaps, result, offset, end);
  }

  /** `result` is the canonical list of what `gaps` covers inside [lo, hi). */
  ghost predicate ClippedTo(result: seq<Range>, gaps: seq<Range>, lo: int, hi: int) {
    && Canonical(result)
    && (forall b :: b in Bytes(result) <==> b in Bytes(gaps) && lo <= b < hi)
    && (result != [] ==> gaps != [] && Last(result).End() <= Last(gaps).End())
  }

  lemma ClipNone(result: seq<Range>, gaps: seq<Range>, n: nat, lo: int, hi: int)
    requires Canonical(gaps) && n < |gaps|
    requires ClippedTo(result, gaps[..n], lo, hi)
    requires gaps[n].offset >= hi || gaps[n].End() <= lo
    ensures ClippedTo(result, gaps[..n + 1], lo, hi)
  {
    NextRange(gaps, n);
    assert result != [] ==> Last(gaps[..n]) == gaps[n - 1];
    assert Last(gaps[..n + 1]) == gaps[n];
  }

  lemma ClipSome(result: seq<Range>, gaps: seq<Range>, n: nat, lo: int, hi: int, clip: Range)
    requires Canonical(gaps) && n < |gaps|
    requires ClippedTo(result, gaps[..n], lo, hi)
    requires clip.offset == if gaps[n].offset < lo then lo else gaps[n].offset
    requires clip.End() == if gaps[n].End() > hi then hi else gaps[n].End()
    requires 0 < clip.length
    ensures ClippedTo(result + [clip], gaps[..n + 1], lo, hi)
  {
    NextRange(gaps, n);
    assert result != [] ==> Last(gaps[..n]) == gaps[n - 1];
    assert Last(gaps[..n + 1]) == gaps[n];
    StartNext(result, clip);
  }

  lemma WindowOfGaps(ranges: seq<Range>, gaps: seq<Range>, result: seq<Range>, lo: int, hi: int)
    requires gaps == Gaps(ranges, hi)
    requires ClippedTo(result, gaps, lo, hi)
    ensures result == Runs(Span(if lo < 0 then 0 else lo, hi) - Bytes(ranges))
  {
    RunsOfCanonical(result);
    var window := Span(if lo < 0 then 0 else lo, hi) - Bytes(ranges);
    forall b
      ensures b in Bytes(result) <==> b in window
    {
      assert b in Bytes(gaps) <==> hi > 0 && 0 <= b < Horizon(ranges, hi) && b !in Bytes(ranges);
    }
    assert Bytes(result) == window;
  }

  // ---------- taking ranges from the front ----------

  lemma BytesCons(rs: seq<Range>)
    requires rs != []
    ensures Bytes(rs) == Span(rs[0].offset, rs[0].End()) + Bytes(rs[1..])
  {
    forall b
      ensures b in Bytes(rs) <==> b in Span(rs[0].offset, rs[0].End()) || b in Bytes(rs[1..])
    {
      BytesMember(rs, b);
      BytesMember(rs[1..], b);
      assert rs == [rs[0]] + rs[1..];
    }
  }

  lemma {:induction false} CanonicalTail(rs: seq<Range>)
    requires Canonical(rs) && rs != []
    ensures 0 < rs[0].length
    ensures Canonical(rs[1..])
    ensures Span(rs[0].offset, rs[0].End()) !! Bytes(rs[1..])
  {
    if |rs| == 1 {
      assert rs[1..] == [];
    } else {
      CanonicalTail(Front(rs));
      RangeOrder(rs, 0, |rs| - 1);
      assert Front(rs)[1..] == Front(rs[1..]);
      assert Last(rs[1..]) == Last(rs);
    }
  }

  lemma {:induction false} CanonicalInside(rs: seq<Range>, n: int)
    requires Canonical(rs) && Within(Bytes(rs), n)
    ensures forall r <- rs :: 0 <= r.offset && 0 < r.length && r.End() <= n
  {
    if rs != [] {
      assert Within(Bytes(Front(rs)), n);
      CanonicalInside(Front(rs), n);
      LastInside(rs, n);
      forall r <- rs
        ensures 0 <= r.offset && 0 < r.length && r.End() <= n
      {
        assert r in Front(rs) || r == Last(rs);
      }
    }
  }

  lemma LastInside(rs: seq<Range>, n: int)
    requires Canonical(rs) && rs != [] && Within(Bytes(rs), n)
    ensures 0 <= Last(rs).offset && Last(rs).End() <= n
  {
    assert Last(rs).offset in Bytes(rs) && Last(rs).End() - 1 in Bytes(rs);
  }
}
