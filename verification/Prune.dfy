/** Which entries a prune evicts: the aged ones, then the least recently used until
    the size limit holds (internal/cache/prune.go). */
module Prune {
  import opened Disk
  import opened Sorting

  datatype Options = Options(maxSize: int, maxAge: int)

  function Total(es: seq<Entry>): int {
    if es == [] then 0 else Total(es[..|es| - 1]) + es[|es| - 1].size
  }

  /** The entries whose digest is not in `ds`, in their order. */
  function Without(es: seq<Entry>, ds: set<Digest>): seq<Entry> {
    if es == [] then []
    else
      var rest := Without(es[..|es| - 1], ds);
      if es[|es| - 1].digest in ds then rest else rest + [es[|es| - 1]]
  }

  predicate Aged(e: Entry, opts: Options, now: int) {
    opts.maxAge > 0 && e.lastAccessed < now - opts.maxAge
  }

  /** One entry per digest, with sizes as they come from descriptors. */
  ghost predicate Loadable(es: seq<Entry>) {
    && (forall a, b :: a in es && b in es && a.digest == b.digest ==> a == b)
    && (forall e :: e in es ==> multiset(es)[e] == 1 && 0 <= e.size)
  }

  lemma {:induction false} WithoutCount(es: seq<Entry>, ds: set<Digest>, e: Entry)
    ensures multiset(Without(es, ds))[e] == if e.digest in ds then 0 else multiset(es)[e]
    ensures e in Without(es, ds) <==> e in es && e.digest !in ds
  {
    if es != [] {
      WithoutCount(es[..|es| - 1], ds, e);
      assert es == es[..|es| - 1] + [es[|es| - 1]];
    }
  }

  lemma {:induction false} TotalRemove(es: seq<Entry>, i: nat)
    requires i < |es|
    ensures Total(es) == Total(es[..i] + es[i + 1..]) + es[i].size
  {
    var front := es[..|es| - 1];
    if i < |es| - 1 {
      TotalRemove(front, i);
      var t := es[..i] + es[i + 1..];
      assert t[..|t| - 1] == front[..i] + front[i + 1..];
    } else {
      assert es[..i] + es[i + 1..] == front;
    }
  }

  /** Taking one occurrence of an entry out of a list. */
  lemma TakeOut(es: seq<Entry>, e: Entry) returns (others: seq<Entry>)
    requires e in es
    ensures multiset(es) == multiset(others) + multiset{e}
    ensures Total(es) == Total(others) + e.size
  {
    var i :| 0 <= i < |es| && es[i] == e;
    others := es[..i] + es[i + 1..];
    TotalRemove(es, i);
    assert es == es[..i] + [e] + es[i + 1..];
  }

  lemma LastApart(es: seq<Entry>)
    requires es != []
    ensures multiset(es) == multiset(es[..|es| - 1]) + multiset{es[|es| - 1]}
  {
    assert es == es[..|es| - 1] + [es[|es| - 1]];
  }

  lemma Cancel(a: multiset<Entry>, b: multiset<Entry>, e: Entry)
    ensures a + multiset{e} == b + multiset{e} ==> a == b
    ensures a + multiset{e} <= b + multiset{e} ==> a <= b
  {
    if a + multiset{e} <= b + multiset{e} {
      forall x
        ensures a[x] <= b[x]
      {
        assert (a + multiset{e})[x] <= (b + multiset{e})[x];
      }
    }
    if a + multiset{e} == b + multiset{e} {
      assert a == a + multiset{e} - multiset{e} == b;
    }
  }

  /** A rearrangement has the same total. */
  lemma {:induction false} TotalRearranged(a: seq<Entry>, b: seq<Entry>)
    requires multiset(a) == multiset(b)
    ensures Total(a) == Total(b)
  {
    SameElements(a, b);
    if a != [] {
      var others := TakeOut(b, a[|a| - 1]);
      LastApart(a);
      Cancel(multiset(a[..|a| - 1]), multiset(others), a[|a| - 1]);
      TotalRearranged(a[..|a| - 1], others);
    }
  }

  lemma {:induction false} TotalNonNegative(es: seq<Entry>)
    requires forall e <- es :: 0 <= e.size
    ensures 0 <= Total(es)
  {
    if es != [] {
      TotalNonNegative(es[..|es| - 1]);
    }
  }

  /** What a removal set keeps. */
  ghost predicate LeastRecentlyUsed(es: seq<Entry>, aged: set<Digest>, toRemove: set<Digest>, maxSize: int) {
    var kept := Without(es, toRemove);
    && aged <= toRemove
    && Total(kept) <= maxSize
    && (forall r, q :: r in es && r.digest in toRemove - aged && q in kept ==> r.lastAccessed <= q.lastAccessed)
    && (toRemove != aged ==>
        exists r :: r in es && r.digest in toRemove - aged && Total(kept) + r.size > maxSize
                    && forall s :: s in es && s.digest in toRemove - aged ==> s.lastAccessed <= r.lastAccessed)
  }

  function Digests(es: seq<Entry>): set<Digest> {
    set e <- es :: e.digest
  }

  lemma SplitCount(order: seq<Entry>, k: nat, e: Entry)
    requires k <= |order|
    ensures multiset(order)[e] == multiset(order[..k])[e] + multiset(order[k..])[e]
    ensures e in order[..k] ==> e in order
  {
    assert order == order[..k] + order[k..];
  }

  /** With the survivors in order, dropping the first `k` digests keeps exactly the
      rest. */
  lemma KeptIsSuffix(es: seq<Entry>, aged: set<Digest>, order: seq<Entry>, k: nat)
    requires Loadable(es) && k <= |order|
    requires multiset(order) == multiset(Without(es, aged))
    ensures multiset(Without(es, aged + Digests(order[..k]))) == multiset(order[k..])
  {
    forall e
      ensures multiset(Without(es, aged + Digests(order[..k])))[e] == multiset(order[k..])[e]
    {
      KeptCount(es, aged, order, k, e);
    }
  }

  lemma KeptCount(es: seq<Entry>, aged: set<Digest>, order: seq<Entry>, k: nat, e: Entry)
    requires Loadable(es) && k <= |order|
    requires multiset(order) == multiset(Without(es, aged))
    ensures multiset(Without(es, aged + Digests(order[..k])))[e] == multiset(order[k..])[e]
  {
    WithoutCount(es, aged, e);
    WithoutCount(es, aged + Digests(order[..k]), e);
    SplitCount(order, k, e);
    if e.digest in Digests(order[..k]) && e in es {
      var i := RemovedIndex(es, aged, order, k, e);
      assert e in multiset(order[..k]);
    } else {
      assert e in multiset(order[..k]) <==> e in order[..k];
      assert e in es <==> e in multiset(es);
    }
  }

  lemma SplitTotal(order: seq<Entry>, k: nat)
    requires k < |order|
    ensures Total(order[k..]) == order[k].size + Total(order[k + 1..])
  {
    TotalRemove(order[k..], 0);
    assert order[k..][..0] + order[k..][1..] == order[k + 1..];
  }

  /** The first `k` survivors go, as few as the limit allows. */
  ghost predicate Cut(order: seq<Entry>, k: nat, maxSize: int) {
    && k <= |order|
    && Total(order[k..]) <= maxSize
    && (k > 0 ==> Total(order[k - 1..]) > maxSize)
  }

  /** An entry removed for its size is among the first `k` survivors. */
  lemma RemovedIndex(es: seq<Entry>, aged: set<Digest>, order: seq<Entry>, k: nat, e: Entry) returns (i: nat)
    requires Loadable(es) && k <= |order| && multiset(order) == multiset(Without(es, aged))
    requires e in es && e.digest in Digests(order[..k])
    ensures i < k && order[i] == e
  {
    i :| 0 <= i < k && order[i].digest == e.digest;
    assert order[i] in multiset(order);
    assert order[i] in multiset(Without(es, aged));
    WithoutCount(es, aged, order[i]);
  }

  lemma CutKeepsRecent(es: seq<Entry>, aged: set<Digest>, order: seq<Entry>, k: nat, r: Entry, q: Entry)
    requires Loadable(es) && k <= |order| && multiset(order) == multiset(Without(es, aged))
    requires SortedBy((e: Entry) => e.lastAccessed, order)
    requires r in es && r.digest in Digests(order[..k]) && q in order[k..]
    ensures r.lastAccessed <= q.lastAccessed
  {
    var i := RemovedIndex(es, aged, order, k, r);
    var j :| k <= j < |order| && order[j] == q;
    var key := (e: Entry) => e.lastAccessed;
    assert key(order[i]) <= key(order[j]);
  }

  /** The survivor cut last is the most recent one cut, and would not have fitted. */
  lemma LastCut(es: seq<Entry>, aged: set<Digest>, order: seq<Entry>, k: nat, maxSize: int)
    requires Loadable(es) && multiset(order) == multiset(Without(es, aged))
    requires SortedBy((e: Entry) => e.lastAccessed, order)
    requires Cut(order, k, maxSize) && k > 0
    ensures var r := order[k - 1];
      && r in es && r.digest in Digests(order[..k]) && r.digest !in aged
      && Total(order[k..]) + r.size > maxSize
      && forall s :: s in es && s.digest in Digests(order[..k]) ==> s.lastAccessed <= r.lastAccessed
  {
    var r := order[k - 1];
    SplitTotal(order, k - 1);
    assert r in multiset(order) && r in multiset(Without(es, aged));
    WithoutCount(es, aged, r);
    assert r in order[..k];
    forall s | s in es && s.digest in Digests(order[..k])
      ensures s.lastAccessed <= r.lastAccessed
    {
      var i := RemovedIndex(es, aged, order, k, s);
      var key := (e: Entry) => e.lastAccessed;
      assert i < k - 1 ==> key(order[i]) <= key(order[k - 1]);
    }
  }

  lemma CutIsLeastRecentlyUsed(es: seq<Entry>, aged: set<Digest>, order: seq<Entry>, k: nat, maxSize: int)
    requires Loadable(es) && multiset(order) == multiset(Without(es, aged))
    requires SortedBy((e: Entry) => e.lastAccessed, order)
    requires Cut(order, k, maxSize)
    ensures LeastRecentlyUsed(es, aged, aged + Digests(order[..k]), maxSize)
  {
    var kept := Without(es, aged + Digests(order[..k]));
    KeptIsSuffix(es, aged, order, k);
    TotalRearranged(kept, order[k..]);
    SameElements(kept, order[k..]);
    forall r, q | r in es && r.digest in Digests(order[..k]) && q in kept
      ensures r.lastAccessed <= q.lastAccessed
    {
      CutKeepsRecent(es, aged, order, k, r, q);
    }
    if k > 0 {
      LastCut(es, aged, order, k, maxSize);
    }
  }

  lemma WithoutSnoc(es: seq<Entry>, n: nat, ds: set<Digest>)
    requires n < |es|
    ensures var before, after := Without(es[..n], ds), Without(es[..n + 1], ds);
      && after == (if es[n].digest in ds then before else before + [es[n]])
      && Total(after) == Total(before) + (if es[n].digest in ds then 0 else es[n].size)
  {
    assert es[..n + 1][..n] == es[..n];
    assert (Without(es[..n], ds) + [es[n]])[..|Without(es[..n], ds)|] == Without(es[..n], ds);
  }

  /** The entries that are not marked yet, and their total size. */
  method Survivors(entries: seq<Entry>, aged: set<Digest>) returns (remaining: seq<Entry>, totalSize: int)
    ensures remaining == Without(entries, aged) && totalSize == Total(remaining)
  {
    remaining, totalSize := [], 0;
    for i := 0 to |entries|
      invariant remaining == Without(entries[..i], aged)
      invariant totalSize == Total(remaining)
    {
      WithoutSnoc(entries, i, aged);
      if entries[i].digest !in aged {
        remaining := remaining + [entries[i]];
        totalSize := totalSize + entries[i].size;
      }
    }
    assert entries[..|entries|] == entries;
  }

  method MarkLRUEntries(entries: seq<Entry>, aged: set<Digest>, maxSize: int) returns (toRemove: set<Digest>)
    requires Loadable(entries) && 0 <= maxSize
    ensures LeastRecentlyUsed(entries, aged, toRemove, maxSize)
    ensures toRemove <= aged + Digests(entries)
  {
    var remaining, totalSize := Survivors(entries, aged);
    if totalSize <= maxSize {
      return aged;
    }

    var order := Sort((e: Entry) => e.lastAccessed, remaining);
    TotalRearranged(order, remaining);
    toRemove := aged;
    var k := 0;
    assert order[0..] == order;
    while k < |order| && totalSize > maxSize
      invariant k <= |order|
      invariant toRemove == aged + Digests(order[..k])
      invariant totalSize == Total(order[k..])
      invariant k > 0 ==> Total(order[k - 1..]) > maxSize
    {
      SplitTotal(order, k);
      DigestsSnoc(order, k);
      toRemove := toRemove + {order[k].digest};
      totalSize := totalSize - order[k].size;
      k := k + 1;
    }
    CutIsLeastRecentlyUsed(entries, aged, order, k, maxSize);
    SurvivorDigests(entries, aged, order, k);
  }

  lemma SurvivorDigests(es: seq<Entry>, aged: set<Digest>, order: seq<Entry>, k: nat)
    requires multiset(order) == multiset(Without(es, aged)) && k <= |order|
    ensures Digests(order[..k]) <= Digests(es)
  {
    forall e <- order
      ensures e in es
    {
      assert e in multiset(order) && e in multiset(Without(es, aged));
      WithoutCount(es, aged, e);
    }
  }

  lemma DigestsSnoc(es: seq<Entry>, n: nat)
    requires n < |es|
    ensures Digests(es[..n + 1]) == Digests(es[..n]) + {es[n].digest}
  {
    assert es[..n + 1] == es[..n] + [es[n]];
  }

  ghost function AgedDigests(es: seq<Entry>, opts: Options, now: int): set<Digest> {
    set e <- es | Aged(e, opts, now) :: e.digest
  }

  /** The removal set of a prune: all aged entries, and no more than the size limit
      asks for. */
  ghost predicate Selects(entries: seq<Entry>, opts: Options, now: int, toRemove: set<Digest>) {
    var aged := AgedDigests(entries, opts, now);
    && toRemove <= Digests(entries)
    && if opts.maxSize > 0 then LeastRecentlyUsed(entries, aged, toRemove, opts.maxSize) else toRemove == aged
  }

  method SelectEntriesToRemove(entries: seq<Entry>, opts: Options, now: int) returns (toRemove: set<Digest>)
    requires Loadable(entries)
    ensures Selects(entries, opts, now, toRemove)
  {
    toRemove := {};
    if opts.maxAge > 0 {
      var cutoff := now - opts.maxAge;
      for i := 0 to |entries|
        invariant toRemove == AgedDigests(entries[..i], opts, now)
      {
        assert entries[..i + 1] == entries[..i] + [entries[i]];
        if entries[i].lastAccessed < cutoff {
          toRemove := toRemove + {entries[i].digest};
        }
      }
      assert entries[..|entries|] == entries;
    }
    if opts.maxSize > 0 {
      toRemove := MarkLRUEntries(entries, toRemove, opts.maxSize);
    }
  }

  lemma {:induction false} TotalSubset(a: seq<Entry>, b: seq<Entry>)
    requires multiset(a) <= multiset(b) && forall e <- b :: 0 <= e.size
    ensures Total(a) <= Total(b)
  {
    if a == [] {
      TotalNonNegative(b);
    } else {
      LastApart(a);
      assert a[|a| - 1] in multiset(b);
      var others := TakeOut(b, a[|a| - 1]);
      forall e <- others
        ensures e in b
      {
        assert e in multiset(others) && e in multiset(b);
      }
      Cancel(multiset(a[..|a| - 1]), multiset(others), a[|a| - 1]);
      TotalSubset(a[..|a| - 1], others);
    }
  }

  /** A choice of unaged entries that takes with an entry every unaged one used at
      least as recently, and stays within the limit. */
  ghost predicate RecentAndFitting(entries: seq<Entry>, opts: Options, now: int, choice: seq<Entry>) {
    && multiset(choice) <= multiset(entries)
    && (forall e <- choice :: !Aged(e, opts, now))
    && (forall q, r :: q in choice && r in entries && !Aged(r, opts, now) && r.lastAccessed >= q.lastAccessed ==>
          r in choice)
    && (opts.maxSize > 0 ==> Total(choice) <= opts.maxSize)
  }

  /** What a prune keeps: nothing aged, at most the size limit, only entries used no
      earlier than any entry removed for its size, and every choice of recent entries
      that fits. */
  lemma PruneIsOptimal(entries: seq<Entry>, opts: Options, now: int, toRemove: set<Digest>, choice: seq<Entry>)
    requires Loadable(entries) && Selects(entries, opts, now, toRemove)
    ensures var kept := Without(entries, toRemove);
      && (forall e <- kept :: e in entries && !Aged(e, opts, now))
      && (opts.maxSize > 0 ==> Total(kept) <= opts.maxSize)
      && (forall q, r :: q in kept && r in entries && !Aged(r, opts, now) && r !in kept ==>
            r.lastAccessed <= q.lastAccessed)
      && (RecentAndFitting(entries, opts, now, choice) ==> forall e <- choice :: e in kept)
  {
    KeptMembers(entries, opts, now, toRemove);
    if RecentAndFitting(entries, opts, now, choice) {
      forall x <- choice
        ensures x in Without(entries, toRemove)
      {
        assert x in multiset(choice) && x in multiset(entries);
        ChosenIsKept(entries, opts, now, toRemove, choice, x);
      }
    }
  }

  /** An entry that is not aged is safe without a size limit, or in a choice that fits. */
  lemma ChosenIsSafe(entries: seq<Entry>, opts: Options, now: int, toRemove: set<Digest>,
                     choice: seq<Entry>, e: Entry)
    requires Loadable(entries) && Selects(entries, opts, now, toRemove)
    requires e in entries && !Aged(e, opts, now)
    requires opts.maxSize <= 0 || (RecentAndFitting(entries, opts, now, choice) && e in choice)
    ensures e.digest !in toRemove
  {
    KeptMembers(entries, opts, now, toRemove);
    if opts.maxSize > 0 {
      PruneIsOptimal(entries, opts, now, toRemove, choice);
    }
  }

  /** The kept entries: those not removed, none aged, together within the size limit. */
  lemma KeptFit(entries: seq<Entry>, opts: Options, now: int, toRemove: set<Digest>, e: Entry)
    requires Loadable(entries) && Selects(entries, opts, now, toRemove) && e in entries
    ensures var kept := Without(entries, toRemove);
      && (e in kept <==> e.digest !in toRemove)
      && (e in kept ==> !Aged(e, opts, now))
      && (opts.maxSize > 0 ==> Total(kept) <= opts.maxSize)
  {
    KeptMembers(entries, opts, now, toRemove);
    PruneIsOptimal(entries, opts, now, toRemove, []);
  }

  lemma KeptMembers(entries: seq<Entry>, opts: Options, now: int, toRemove: set<Digest>)
    requires Loadable(entries) && Selects(entries, opts, now, toRemove)
    ensures forall e :: e in Without(entries, toRemove) <==> e in entries && e.digest !in toRemove
    ensures forall e :: e in entries ==> (e.digest in AgedDigests(entries, opts, now) <==> Aged(e, opts, now))
  {
    forall e: Entry
      ensures e in Without(entries, toRemove) <==> e in entries && e.digest !in toRemove
    {
      WithoutCount(entries, toRemove, e);
    }
  }

  lemma ChosenIsKept(entries: seq<Entry>, opts: Options, now: int, toRemove: set<Digest>,
                     choice: seq<Entry>, x: Entry)
    requires Loadable(entries) && Selects(entries, opts, now, toRemove)
    requires RecentAndFitting(entries, opts, now, choice) && x in choice && x in entries
    ensures x in Without(entries, toRemove)
  {
    var kept := Without(entries, toRemove);
    var aged := AgedDigests(entries, opts, now);
    KeptMembers(entries, opts, now, toRemove);
    if opts.maxSize > 0 && toRemove != aged {
      var r :| r in entries && r.digest in toRemove - aged && Total(kept) + r.size > opts.maxSize
               && forall s :: s in entries && s.digest in toRemove - aged ==> s.lastAccessed <= r.lastAccessed;
      assert (kept + [r])[..|kept|] == kept;
      if r in choice && forall e <- kept :: e in choice {
        ChoiceHolds(entries, kept + [r], choice, toRemove, r);
        TotalSubset(kept + [r], choice);
      }
    }
  }

  lemma ChoiceHolds(entries: seq<Entry>, larger: seq<Entry>, choice: seq<Entry>, toRemove: set<Digest>, r: Entry)
    requires Loadable(entries) && larger == Without(entries, toRemove) + [r]
    requires r in choice && r.digest in toRemove && forall e <- Without(entries, toRemove) :: e in choice
    requires multiset(choice) <= multiset(entries)
    ensures multiset(larger) <= multiset(choice)
    ensures forall e <- choice :: 0 <= e.size
  {
    forall e
      ensures multiset(larger)[e] <= multiset(choice)[e]
    {
      WithoutCount(entries, toRemove, e);
      assert e in choice ==> e in multiset(choice);
      assert e in entries ==> e in multiset(entries);
    }
    forall e <- choice
      ensures 0 <= e.size
    {
      assert e in multiset(choice) && e in multiset(entries);
    }
  }

  // ---------- accounting ----------

  datatype Result = Result(entriesRemoved: int, bytesRemoved: int, entriesRemaining: int, bytesRemaining: int)

  /** The entries whose digest is in `ds`, in their order. */
  function Among(es: seq<Entry>, ds: set<Digest>): seq<Entry> {
    if es == [] then []
    else
      var rest := Among(es[..|es| - 1], ds);
      if es[|es| - 1].digest in ds then rest + [es[|es| - 1]] else rest
  }

  lemma AmongSnoc(es: seq<Entry>, n: nat, ds: set<Digest>)
    requires n < |es|
    ensures var before, after := Among(es[..n], ds), Among(es[..n + 1], ds);
      && after == (if es[n].digest in ds then before + [es[n]] else before)
      && Total(after) == Total(before) + (if es[n].digest in ds then es[n].size else 0)
  {
    assert es[..n + 1][..n] == es[..n];
    assert (Among(es[..n], ds) + [es[n]])[..|Among(es[..n], ds)|] == Among(es[..n], ds);
  }

  lemma FreshDigest(es: seq<Entry>, n: nat)
    requires Loadable(es) && n < |es|
    ensures es[n].digest !in Digests(es[..n])
  {
    var x, before := es[n], es[..n];
    assert es == before + [x] + es[n + 1..];
    assert multiset(es)[x] == multiset(before)[x] + 1 + multiset(es[n + 1..])[x];
    forall e <- before
      ensures e.digest != x.digest
    {
      assert e in es && x in es;
      assert e in multiset(before);
    }
  }

  /** A digest that does not occur can be added to the set without effect. */
  lemma {:induction false} AmongOther(es: seq<Entry>, n: nat, ds: set<Digest>, d: Digest)
    requires n <= |es| && d !in Digests(es[..n])
    ensures Among(es[..n], ds + {d}) == Among(es[..n], ds)
  {
    if n > 0 {
      DigestsSnoc(es, n - 1);
      AmongSnoc(es, n - 1, ds);
      AmongSnoc(es, n - 1, ds + {d});
      AmongOther(es, n - 1, ds, d);
    }
  }

  /** What one execution of the removals reports, given which of them succeeded. */
  function Report(es: seq<Entry>, toRemove: set<Digest>, evicted: set<Digest>): Result {
    Result(|Among(es, evicted)|, Total(Among(es, evicted)), |Without(es, toRemove)|, Total(Without(es, toRemove)))
  }

  /** How the report grows with the next entry. */
  lemma ReportStep(es: seq<Entry>, n: nat, toRemove: set<Digest>, evicted: set<Digest>, succeeds: bool)
    requires Loadable(es) && n < |es| && evicted <= toRemove && evicted <= Digests(es[..n])
    ensures var d, r := es[n].digest, Report(es[..n], toRemove, evicted);
      if d !in toRemove then
        Report(es[..n + 1], toRemove, evicted) ==
          r.(entriesRemaining := r.entriesRemaining + 1, bytesRemaining := r.bytesRemaining + es[n].size)
      else if succeeds then
        Report(es[..n + 1], toRemove, evicted + {d}) ==
          r.(entriesRemoved := r.entriesRemoved + 1, bytesRemoved := r.bytesRemoved + es[n].size)
      else Report(es[..n + 1], toRemove, evicted) == r
  {
    var d := es[n].digest;
    FreshDigest(es, n);
    WithoutSnoc(es, n, toRemove);
    AmongOther(es, n, evicted, d);
    AmongSnoc(es, n, evicted);
    AmongSnoc(es, n, evicted + {d});
  }

  /** Removed, remaining and failed entries partition the loaded ones, in count and
      in bytes. */
  lemma {:induction false} PruneConserves(es: seq<Entry>, toRemove: set<Digest>, evicted: set<Digest>)
    requires evicted <= toRemove
    ensures var r := Report(es, toRemove, evicted);
      && r.entriesRemoved + r.entriesRemaining + |Among(es, toRemove - evicted)| == |es|
      && r.bytesRemoved + r.bytesRemaining + Total(Among(es, toRemove - evicted)) == Total(es)
  {
    if es != [] {
      var n := |es| - 1;
      PruneConserves(es[..n], toRemove, evicted);
      assert es[..n + 1] == es;
      WithoutSnoc(es, n, toRemove);
      AmongSnoc(es, n, evicted);
      AmongSnoc(es, n, toRemove - evicted);
    }
  }
}
