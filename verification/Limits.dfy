/** Extraction limits: the streaming checker (checkLimits in
    internal/archive/extract.go) and the batch validator (ValidateExtraction in
    internal/safepath/safepath.go), written independently. */
module Limits {
  import opened Ranges
  import opened SafePath

  datatype Limits = Limits(maxFiles: int, maxTotalSize: int, maxFileSize: int)

  ghost predicate Int64(x: int) { -MAX_INT64 - 1 <= x <= MAX_INT64 }

  function Sum(sizes: seq<int>): int {
    if sizes == [] then 0 else Sum(sizes[..|sizes| - 1]) + sizes[|sizes| - 1]
  }

  predicate SizeOk(limits: Limits, size: int) {
    0 <= size && (limits.maxFileSize > 0 ==> size <= limits.maxFileSize)
  }

  /** What the limits ask of a list of regular-file sizes; the total must also be an
      int64. */
  predicate WithinLimits(limits: Limits, sizes: seq<int>) {
    && (forall i | 0 <= i < |sizes| :: SizeOk(limits, sizes[i]))
    && Sum(sizes) <= MAX_INT64
    && (limits.maxFiles > 0 ==> |sizes| <= limits.maxFiles)
    && (limits.maxTotalSize > 0 ==> Sum(sizes) <= limits.maxTotalSize)
  }

  lemma {:induction false} SumNonNegative(sizes: seq<int>)
    requires forall i | 0 <= i < |sizes| :: 0 <= sizes[i]
    ensures 0 <= Sum(sizes)
  {
    if sizes != [] {
      SumNonNegative(sizes[..|sizes| - 1]);
    }
  }

  /** Limits that hold of a list hold of everything before its end. */
  lemma {:induction false} WithinLimitsPrefix(limits: Limits, sizes: seq<int>, n: nat)
    requires WithinLimits(limits, sizes) && n <= |sizes|
    ensures WithinLimits(limits, sizes[..n]) && 0 <= Sum(sizes[..n])
    decreases |sizes|
  {
    SumNonNegative(sizes);
    if n < |sizes| {
      var front := sizes[..|sizes| - 1];
      SumNonNegative(front);
      WithinLimitsPrefix(limits, front, n);
      assert front[..n] == sizes[..n];
    } else {
      assert sizes[..n] == sizes;
    }
  }

  /** One more size: within the limits before, and each check of the code passes. */
  lemma WithinLimitsSnoc(limits: Limits, sizes: seq<int>, n: nat)
    requires n < |sizes|
    ensures WithinLimits(limits, sizes[..n + 1]) <==>
      && WithinLimits(limits, sizes[..n]) && SizeOk(limits, sizes[n])
      && Sum(sizes[..n]) + sizes[n] <= MAX_INT64
      && (limits.maxFiles > 0 ==> n + 1 <= limits.maxFiles)
      && (limits.maxTotalSize > 0 ==> Sum(sizes[..n]) + sizes[n] <= limits.maxTotalSize)
    ensures Sum(sizes[..n + 1]) == Sum(sizes[..n]) + sizes[n]
  {
    var all, before := sizes[..n + 1], sizes[..n];
    assert all[..n] == before;
    if WithinLimits(limits, all) {
      WithinLimitsPrefix(limits, all, n);
    }
    if WithinLimits(limits, before) && SizeOk(limits, sizes[n]) {
      forall i | 0 <= i < |all|
        ensures SizeOk(limits, all[i])
      {
        assert i < n ==> all[i] == before[i];
      }
    }
  }

  // ---------- streaming ----------

  datatype EntryType = Regular | Directory | Symlink | Unsupported | Ignored

  datatype Header = Header(name: string, entryType: EntryType, size: int, target: string)

  const TOC_NAME := "stargz.index.json"

  class ExtractState {
    const limits: Limits
    var fileCount: int
    var totalSize: int
    ghost var sizes: seq<int>

    constructor (limits: Limits)
      ensures this.limits == limits && Valid() && sizes == []
    {
      this.limits := limits;
      fileCount, totalSize, sizes := 0, 0, [];
    }

    /** The counters describe the regular files seen so far, all within the limits. */
    ghost predicate Valid()
      reads this
    {
      fileCount == |sizes| && totalSize == Sum(sizes) && 0 <= totalSize && WithinLimits(limits, sizes)
    }

    /** checkLimits.  After a rejection extraction stops and the counters are not
        used again. */
    method CheckLimits(size: int) returns (ok: bool)
      requires Valid() && Int64(size)
      modifies this
      ensures ok <==> WithinLimits(limits, old(sizes) + [size])
      ensures ok ==> Valid() && sizes == old(sizes) + [size]
    {
      ghost var all := sizes + [size];
      assert all[..|sizes|] == sizes && all[..|sizes| + 1] == all;
      WithinLimitsSnoc(limits, all, |sizes|);
      if size < 0 {
        return false;
      }
      fileCount := fileCount + 1;
      if limits.maxFiles > 0 && fileCount > limits.maxFiles {
        return false;
      }
      if limits.maxFileSize > 0 && size > limits.maxFileSize {
        return false;
      }
      if totalSize > MAX_INT64 - size {
        return false;
      }
      totalSize := totalSize + size;
      if limits.maxTotalSize > 0 && totalSize > limits.maxTotalSize {
        return false;
      }
      sizes := all;
      ok := true;
    }

    /** The checks of processEntry, before anything is written. */
    method ProcessEntry(absDestDir: string, h: Header) returns (ok: bool)
      requires Valid() && Int64(h.size) && IsAbs(absDestDir)
      modifies this
      ensures ok <==> NameAndTypeOk(absDestDir, h) && WithinLimits(limits, old(sizes) + RegularSizes([h]))
      ensures ok ==> Valid() && sizes == old(sizes) + RegularSizes([h])
    {
      assert RegularSizes([h]) == if h.name != TOC_NAME && h.entryType.Regular? then [h.size] else [];
      assert sizes + [] == sizes;
      if h.name == TOC_NAME {
        return true;
      }
      var valid := ValidatePath(h.name);
      if !valid {
        return false;
      }
      if h.entryType.Regular? {
        var within := CheckLimits(h.size);
        if !within {
          return false;
        }
      }
      match h.entryType
      case Symlink =>
        ok := ValidateSymlink(absDestDir, h.name, h.target);
      case Unsupported =>
        ok := false;
      case _ =>
        ok := true;
    }
  }

  predicate NameAndTypeOk(absDestDir: string, h: Header)
    requires IsAbs(absDestDir)
  {
    h.name == TOC_NAME
    || (&& ValidName(h.name)
        && (h.entryType.Symlink? ==> SymlinkOk(absDestDir, h.name, h.target))
        && !h.entryType.Unsupported?)
  }

  /** The sizes of the regular files of an archive; its own table of contents does
      not count. */
  function RegularSizes(headers: seq<Header>): seq<int> {
    if headers == [] then []
    else
      var h := headers[|headers| - 1];
      RegularSizes(headers[..|headers| - 1]) + if h.name != TOC_NAME && h.entryType.Regular? then [h.size] else []
  }

  predicate ArchiveOk(absDestDir: string, headers: seq<Header>, limits: Limits)
    requires IsAbs(absDestDir)
  {
    && (forall i | 0 <= i < |headers| :: NameAndTypeOk(absDestDir, headers[i]))
    && WithinLimits(limits, RegularSizes(headers))
  }

  /** The extraction loop, entry by entry. */
  method CheckEntries(absDestDir: string, headers: seq<Header>, limits: Limits) returns (ok: bool)
    requires IsAbs(absDestDir)
    requires forall i | 0 <= i < |headers| :: Int64(headers[i].size)
    ensures ok <==> ArchiveOk(absDestDir, headers, limits)
  {
    var state := new ExtractState(limits);
    for i := 0 to |headers|
      invariant state.limits == limits && state.Valid() && state.sizes == RegularSizes(headers[..i])
      invariant forall k | 0 <= k < i :: NameAndTypeOk(absDestDir, headers[k])
    {
      RegularSizesSnoc(headers, i);
      ok := state.ProcessEntry(absDestDir, headers[i]);
      if !ok {
        assert !(NameAndTypeOk(absDestDir, headers[i]) && WithinLimits(limits, RegularSizes(headers[..i + 1])));
        RegularSizesPrefix(limits, headers, i + 1);
        return;
      }
    }
    assert headers[..|headers|] == headers;
    ok := true;
  }

  /** Unless it is the table of contents: the name is relative, without NUL and without
      ".." between separators; the type is supported; and a symbolic link leads by its
      target's components, from its own directory, to a place inside the destination. */
  ghost predicate StaysInside(dest: seq<string>, h: Header) {
    h.name == "stargz.index.json"
    || (&& '\0' !in h.name && !(|h.name| > 0 && h.name[0] == '/') && (forall i :: !DotDotAt(h.name, i))
        && !h.entryType.Unsupported?
        && (h.entryType.Symlink? ==>
              && '\0' !in h.target && !(|h.target| > 0 && (h.target[0] == '/' || h.target[0] == '\\'))
              && dest <= Resolved(dest, h.name, h.target)))
  }

  lemma HeaderStaysInside(dest: seq<string>, h: Header)
    requires AllProper(dest)
    ensures NameAndTypeOk(Render(dest), h) <==> StaysInside(dest, h)
  {
    TraversalIsDotDot(h.name);
    SymlinkAcceptedIffInside(dest, h.name, h.target);
    assert HasPrefix(h.target, "\\") <==> |h.target| > 0 && h.target[0] == '\\';
  }

  lemma ArchiveStaysInside(absDestDir: string, headers: seq<Header>)
    requires IsAbs(absDestDir)
    ensures forall dest :: AllProper(dest) && absDestDir == Render(dest) ==>
      ((forall i | 0 <= i < |headers| :: NameAndTypeOk(absDestDir, headers[i])) <==>
       (forall i | 0 <= i < |headers| :: StaysInside(dest, headers[i])))
  {
    forall dest | AllProper(dest) && absDestDir == Render(dest)
      ensures forall i | 0 <= i < |headers| :: NameAndTypeOk(absDestDir, headers[i]) <==> StaysInside(dest, headers[i])
    {
      forall i | 0 <= i < |headers|
        ensures NameAndTypeOk(absDestDir, headers[i]) <==> StaysInside(dest, headers[i])
      {
        HeaderStaysInside(dest, headers[i]);
      }
    }
  }

  /** The checks of a whole extraction: it goes through exactly when the regular files are
      within the limits and every header stays inside, by the components of its name and
      of its link target. */
  method CheckArchive(absDestDir: string, headers: seq<Header>, limits: Limits) returns (ok: bool)
    requires IsAbs(absDestDir)
    requires forall i | 0 <= i < |headers| :: Int64(headers[i].size)
    ensures ok <==> ArchiveOk(absDestDir, headers, limits)
    ensures forall dest :: AllProper(dest) && absDestDir == Render(dest) ==>
      (ok <==> && WithinLimits(limits, RegularSizes(headers))
               && forall i | 0 <= i < |headers| :: StaysInside(dest, headers[i]))
  {
    ok := CheckEntries(absDestDir, headers, limits);
    ArchiveStaysInside(absDestDir, headers);
  }

  lemma RegularSizesSnoc(headers: seq<Header>, n: nat)
    requires n < |headers|
    ensures RegularSizes(headers[..n + 1]) == RegularSizes(headers[..n]) + RegularSizes([headers[n]])
  {
    assert headers[..n + 1][..n] == headers[..n];
    assert [headers[n]][..0] == [];
    assert RegularSizes([headers[n]]) == [] + RegularSizes([headers[n]]);
  }

  lemma {:induction false} RegularSizesPrefix(limits: Limits, headers: seq<Header>, n: nat)
    requires n <= |headers|
    ensures WithinLimits(limits, RegularSizes(headers)) ==> WithinLimits(limits, RegularSizes(headers[..n]))
  {
    if n < |headers| {
      var front := headers[..|headers| - 1];
      RegularSizesPrefix(limits, front, n);
      assert front[..n] == headers[..n];
      if WithinLimits(limits, RegularSizes(headers)) {
        WithinLimitsPrefix(limits, RegularSizes(headers), |RegularSizes(front)|);
        assert RegularSizes(headers)[..|RegularSizes(front)|] == RegularSizes(front);
      }
    } else {
      assert headers[..n] == headers;
    }
  }

  // ---------- batch ----------

  datatype TocEntry = TocEntry(name: string, regular: bool, size: int)

  function TocSizes(entries: seq<TocEntry>): seq<int> {
    if entries == [] then []
    else
      var e := entries[|entries| - 1];
      TocSizes(entries[..|entries| - 1]) + if e.regular then [e.size] else []
  }

  predicate ExtractionOk(absDestDir: string, entries: seq<TocEntry>, limits: Limits)
    requires IsAbs(absDestDir)
  {
    && (forall i | 0 <= i < |entries| :: EntryInside(absDestDir, entries[i].name))
    && WithinLimits(limits, TocSizes(entries))
  }

  /** What the loop of ValidateExtraction has checked of the sizes seen so far. */
  predicate SizesChecked(limits: Limits, sizes: seq<int>) {
    && (forall i | 0 <= i < |sizes| :: SizeOk(limits, sizes[i]))
    && 0 <= Sum(sizes) <= MAX_INT64
  }

  lemma TocStep(limits: Limits, entries: seq<TocEntry>, n: nat)
    requires n < |entries| && SizesChecked(limits, TocSizes(entries[..n]))
    ensures var before, after, e := TocSizes(entries[..n]), TocSizes(entries[..n + 1]), entries[n];
      && (!e.regular ==> after == before)
      && (e.regular ==> Sum(after) == Sum(before) + e.size && |after| == |before| + 1
                        && (SizesChecked(limits, after) <==>
                              SizeOk(limits, e.size) && Sum(before) + e.size <= MAX_INT64))
  {
    assert entries[..n + 1][..n] == entries[..n];
    var before, after := TocSizes(entries[..n]), TocSizes(entries[..n + 1]);
    if entries[n].regular {
      assert after == before + [entries[n].size];
      assert after[..|after| - 1] == before && after[|before|] == entries[n].size;
      assert forall i | 0 <= i < |before| :: after[i] == before[i];
    }
  }

  lemma UncheckedNotWithin(limits: Limits, entries: seq<TocEntry>, n: nat)
    requires n <= |entries| && !SizesChecked(limits, TocSizes(entries[..n]))
    ensures !WithinLimits(limits, TocSizes(entries))
  {
    TocSizesPrefix(limits, entries, n);
    if WithinLimits(limits, TocSizes(entries[..n])) {
      SumNonNegative(TocSizes(entries[..n]));
    }
  }

  /** ValidateExtraction accepts exactly the lists with acceptable names whose regular
      files are within the limits: the same condition on sizes that the streaming
      checker enforces. */
  method ValidateExtraction(absDestDir: string, entries: seq<TocEntry>, limits: Limits) returns (ok: bool)
    requires IsAbs(absDestDir)
    requires forall i | 0 <= i < |entries| :: Int64(entries[i].size)
    ensures ok <==> ExtractionOk(absDestDir, entries, limits)
  {
    var totalSize, fileCount := 0, 0;
    for i := 0 to |entries|
      invariant SizesChecked(limits, TocSizes(entries[..i]))
      invariant fileCount == |TocSizes(entries[..i])| && totalSize == Sum(TocSizes(entries[..i]))
      invariant forall k | 0 <= k < i :: EntryInside(absDestDir, entries[k].name)
    {
      var valid := ValidatePath(entries[i].name);
      if !valid || !IsWithinDir(Join(absDestDir, entries[i].name), absDestDir) {
        assert !EntryInside(absDestDir, entries[i].name);
        return false;
      }
      TocStep(limits, entries, i);
      if entries[i].regular {
        var size := entries[i].size;
        if size < 0 || (limits.maxFileSize > 0 && size > limits.maxFileSize) || totalSize > MAX_INT64 - size {
          UncheckedNotWithin(limits, entries, i + 1);
          return false;
        }
        totalSize := totalSize + size;
        fileCount := fileCount + 1;
      }
    }
    assert entries[..|entries|] == entries;
    assert WithinLimits(limits, TocSizes(entries)) ==> ExtractionOk(absDestDir, entries, limits);
    if limits.maxFiles > 0 && fileCount > limits.maxFiles {
      return false;
    }
    ok := !(limits.maxTotalSize > 0 && totalSize > limits.maxTotalSize);
  }

  predicate EntryInside(absDestDir: string, name: string)
    requires IsAbs(absDestDir)
  {
    ValidName(name) && IsWithinDir(Join(absDestDir, name), absDestDir)
  }

  lemma {:induction false} TocSizesPrefix(limits: Limits, entries: seq<TocEntry>, n: nat)
    requires n <= |entries|
    ensures WithinLimits(limits, TocSizes(entries)) ==> WithinLimits(limits, TocSizes(entries[..n]))
  {
    if n < |entries| {
      var front := entries[..|entries| - 1];
      TocSizesPrefix(limits, front, n);
      assert front[..n] == entries[..n];
      if WithinLimits(limits, TocSizes(entries)) {
        WithinLimitsPrefix(limits, TocSizes(entries), |TocSizes(front)|);
        assert TocSizes(entries)[..|TocSizes(front)|] == TocSizes(front);
      }
    } else {
      assert entries[..n] == entries;
    }
  }

  // ---------- the two checkers agree ----------

  function TocOf(headers: seq<Header>): seq<TocEntry> {
    if headers == [] then []
    else
      var h := headers[|headers| - 1];
      TocOf(headers[..|headers| - 1]) + [TocEntry(h.name, h.entryType.Regular?, h.size)]
  }

  lemma {:induction false} TocOfFiles(headers: seq<Header>)
    requires forall i | 0 <= i < |headers| :: headers[i].entryType.Regular? && headers[i].name != TOC_NAME
    ensures |TocOf(headers)| == |headers|
    ensures forall i | 0 <= i < |headers| :: TocOf(headers)[i].name == headers[i].name
    ensures TocSizes(TocOf(headers)) == RegularSizes(headers)
  {
    if headers != [] {
      TocOfFiles(headers[..|headers| - 1]);
      assert TocOf(headers)[..|headers| - 1] == TocOf(headers[..|headers| - 1]);
    }
  }

  /** For every list of regular files, every limits and every clean destination, what
      the streaming checker demands is what the batch validator demands. */
  lemma {:induction false} StreamingAndBatchAgree(dest: seq<string>, headers: seq<Header>, limits: Limits)
    requires AllProper(dest)
    requires forall i | 0 <= i < |headers| :: headers[i].entryType.Regular? && headers[i].name != TOC_NAME
    ensures ArchiveOk(Render(dest), headers, limits) <==> ExtractionOk(Render(dest), TocOf(headers), limits)
  {
    TocOfFiles(headers);
    forall i | 0 <= i < |headers|
      ensures NameAndTypeOk(Render(dest), headers[i]) <==> EntryInside(Render(dest), TocOf(headers)[i].name)
    {
      if ValidName(headers[i].name) {
        ValidNamesStayInside(dest, headers[i].name);
      }
    }
  }
}
