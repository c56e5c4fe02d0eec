/** The dirty-page index (write_tracker.hpp). */
module WriteTracker {

  const PAGE: nat := 0x1000

  predicate IsPage(p: int) {
    p % PAGE == 0
  }

  /** address & page_mask. */
  function PageOf(a: nat): (p: nat)
    ensures IsPage(p) && p <= a < p + PAGE
  {
    a - a % PAGE
  }

  lemma PagesAreApart(p: int, q: int)
    requires IsPage(p) && IsPage(q) && p < q
    ensures p + PAGE <= q
  {
  }

  lemma NeighbourPages(p: int)
    requires IsPage(p)
    ensures IsPage(p + PAGE) && IsPage(p - PAGE)
  {
  }

  lemma PageOfPage(p: nat, a: nat)
    requires IsPage(p) && p <= a < p + PAGE
    ensures PageOf(a) == p
  {
  }

  /** Clearing the low twelve bits of a 64-bit word rounds it down to a multiple of the page size. */
  lemma MaskIsPageOf(x: bv64)
    ensures x & 0xFFFF_FFFF_FFFF_F000 == (x / 0x1000) * 0x1000 == x - x % 0x1000
  {
  }

  datatype Region = Region(start: nat, size: nat)

  function End(r: Region): nat {
    r.start + r.size
  }

  /** A write whose page loop does not wrap at the top of the address space. */
  predicate NonWrapping(address: nat, size: nat) {
    0 < address + size && address + size - 1 < 0xFFFF_FFFF_FFFF_F000
  }

  /** The pages from that of the first byte to that of the last. */
  function PagesOf(address: nat, size: nat): set<nat>
    requires 0 < address + size
  {
    set p | PageOf(address) <= p <= PageOf(address + size - 1) && IsPage(p)
  }

  const TOP: nat := 0x1_0000_0000_0000_0000

  /** The page that the loop of record_write has reached after k steps, in 64-bit arithmetic. */
  function PageAfter(address: nat, k: nat): nat {
    (PageOf(address) + 0x1000 * k) % TOP
  }

  /** The loop ends, that is it reaches a page past the last one, exactly if it does not wrap. */
  lemma LoopEndsIff(address: nat, size: nat)
    requires 0 < size && address + size - 1 < TOP
    ensures (exists k :: PageAfter(address, k) > PageOf(address + size - 1)) <==> NonWrapping(address, size)
  {
    var first, last := PageOf(address), PageOf(address + size - 1);
    PageOfMonotone(address, address + size - 1);
    if NonWrapping(address, size) {
      var k := StepsBetween(first, last);
      hide PageOf, IsPage;
      assert PageAfter(address, k) == (last + 0x1000) % TOP == last + 0x1000;
    } else {
      LastPage(address + size - 1);
      forall k: nat
        ensures PageAfter(address, k) <= last
      {
        hide PageOf, IsPage;
        PageInWord(first, k);
      }
    }
  }

  lemma StepsBetween(first: nat, last: nat) returns (k: nat)
    requires IsPage(first) && IsPage(last) && first <= last
    ensures first + 0x1000 * k == last + 0x1000
  {
    k := (last - first) / 0x1000 + 1;
  }

  lemma LastPage(a: nat)
    requires TOP - PAGE <= a < TOP
    ensures PageOf(a) == TOP - PAGE
  {
  }

  lemma PageInWord(first: nat, k: nat)
    requires IsPage(first)
    ensures (first + 0x1000 * k) % TOP <= TOP - PAGE
  {
    assert IsPage((first + 0x1000 * k) % TOP);
  }

  predicate Aligned(dirty: set<nat>) {
    forall p :: p in dirty ==> IsPage(p)
  }

  /** A page is touched by a write exactly when it holds a byte the write changes. */
  lemma TouchedPages(address: nat, size: nat, b: nat)
    requires 0 < size
    ensures PageOf(b) in PagesOf(address, size) <==> exists x :: address <= x < address + size && PageOf(x) == PageOf(b)
  {
    hide PageOf, IsPage;
    var p, first, last := PageOf(b), PageOf(address), PageOf(address + size - 1);
    if first <= p <= last {
      var x := if p < address then address else p;
      if p < address {
        SamePage(first, p, address);
      } else {
        PageOfPage(p, p);
      }
      assert address <= x < address + size && PageOf(x) == p;
    }
    forall x | address <= x < address + size && PageOf(x) == p
      ensures first <= p <= last
    {
      PageOfMonotone(address, x);
      PageOfMonotone(x, address + size - 1);
    }
  }

  lemma SamePage(first: nat, p: nat, a: nat)
    requires IsPage(first) && IsPage(p) && first <= p <= a < first + PAGE
    ensures first == p
  {
    hide IsPage;
    if first < p {
      PagesAreApart(first, p);
    }
  }

  lemma PageOfMonotone(a: nat, b: nat)
    requires a <= b
    ensures PageOf(a) <= PageOf(b)
  {
    hide PageOf, IsPage;
    if PageOf(b) < PageOf(a) {
      PagesAreApart(PageOf(b), PageOf(a));
    }
  }

  // ----- The write log

  datatype Write = Write(address: nat, size: nat)

  predicate AllNonWrapping(log: seq<Write>) {
    forall i :: 0 <= i < |log| ==> NonWrapping(log[i].address, log[i].size) && log[i].size > 0
  }

  /** The dirty pages after recording every write of the log in turn. */
  function DirtyAfter(log: seq<Write>): set<nat>
    requires AllNonWrapping(log)
  {
    if log == [] then {}
    else
      var w := log[|log| - 1];
      DirtyAfter(log[..|log| - 1]) + PagesOf(w.address, w.size)
  }

  /** Some write of the log changes a byte on the page of b. */
  ghost predicate TouchesPageOf(log: seq<Write>, b: nat) {
    exists w, x :: w in log && w.address <= x < w.address + w.size && PageOf(x) == PageOf(b)
  }

  /** The index agrees with the byte-level log. */
  lemma {:induction false} IndexAgreesWithLog(log: seq<Write>, b: nat)
    requires AllNonWrapping(log)
    ensures PageOf(b) in DirtyAfter(log) <==> TouchesPageOf(log, b)
    ensures Aligned(DirtyAfter(log))
    decreases |log|
  {
    hide PageOf, IsPage;
    if log != [] {
      var init, w := log[..|log| - 1], log[|log| - 1];
      assert log == init + [w];
      IndexAgreesWithLog(init, b);
      TouchedPages(w.address, w.size, b);
      if TouchesPageOf(init, b) {
        var v, x :| v in init && v.address <= x < v.address + v.size && PageOf(x) == PageOf(b);
        assert v in log;
      }
      if PageOf(b) in PagesOf(w.address, w.size) {
        var x :| w.address <= x < w.address + w.size && PageOf(x) == PageOf(b);
        assert w in log;
      }
    }
  }

  // ----- Regions

  /** r is a largest block of consecutive dirty pages. */
  ghost predicate IsMaximalBlock(dirty: set<nat>, r: Region) {
    && r.size > 0 && IsPage(r.start) && IsPage(End(r))
    && (forall p :: r.start <= p < End(r) && IsPage(p) ==> p in dirty)
    && r.start - PAGE !in dirty
    && End(r) !in dirty
  }

  function TotalSize(rs: seq<Region>): nat {
    if rs == [] then 0 else TotalSize(rs[..|rs| - 1]) + rs[|rs| - 1].size
  }

  /** In increasing order, with at least one clean page between neighbours. */
  ghost predicate Separated(rs: seq<Region>) {
    forall i, j :: 0 <= i < j < |rs| ==> End(rs[i]) < rs[j].start
  }

  predicate CoveredBy(rs: seq<Region>, a: nat) {
    exists r :: r in rs && r.start <= a < End(r)
  }

  /** Two maximal blocks with a common address are the same block. */
  lemma BlocksAreEqual(dirty: set<nat>, r: Region, s: Region, a: nat)
    requires IsMaximalBlock(dirty, r) && IsMaximalBlock(dirty, s)
    requires r.start <= a < End(r) && s.start <= a < End(s)
    ensures r == s
  {
    BlockStartsFirst(dirty, r, s, a);
    BlockStartsFirst(dirty, s, r, a);
    BlockEndsLast(dirty, r, s, a);
    BlockEndsLast(dirty, s, r, a);
  }

  lemma BlockStartsFirst(dirty: set<nat>, r: Region, s: Region, a: nat)
    requires IsMaximalBlock(dirty, r) && IsMaximalBlock(dirty, s)
    requires r.start <= a < End(r) && s.start <= a < End(s)
    ensures r.start <= s.start
  {
    hide IsPage;
    if s.start < r.start {
      PagesAreApart(s.start, r.start);
      NeighbourPages(r.start);
    }
  }

  lemma BlockEndsLast(dirty: set<nat>, r: Region, s: Region, a: nat)
    requires IsMaximalBlock(dirty, r) && IsMaximalBlock(dirty, s)
    requires r.start <= a < End(r) && s.start <= a < End(s)
    ensures End(s) <= End(r)
  {
    hide IsPage;
  }

  /** What get_dirty_regions is for: one region for every maximal block, in order, and nothing else. */
  ghost predicate AreTheRegions(dirty: set<nat>, rs: seq<Region>) {
    && Separated(rs)
    && (forall r :: r in rs <==> IsMaximalBlock(dirty, r))
    && TotalSize(rs) == 0x1000 * |dirty|
    && (forall a: nat :: CoveredBy(rs, a) <==> PageOf(a) in dirty)
  }

  ghost predicate Sorted(s: seq<nat>) {
    forall i, j :: 0 <= i < j < |s| ==> s[i] < s[j]
  }

  /** [start, end) is a block of dirty pages that starts a maximal block. */
  ghost predicate OpenBlock(dirty: set<nat>, start: nat, end: nat) {
    IsPage(start) && IsPage(end) && start < end && start - PAGE !in dirty
    && forall p :: start <= p < end && IsPage(p) ==> p in dirty
  }

  /** rs holds maximal blocks in order, all of them before `start`. */
  ghost predicate Closed(dirty: set<nat>, rs: seq<Region>, start: nat) {
    Separated(rs) && forall r :: r in rs ==> IsMaximalBlock(dirty, r) && End(r) < start
  }

  /** The first i pages are covered by rs or by the open block. */
  ghost predicate CoversFirst(sorted: seq<nat>, rs: seq<Region>, i: nat, start: nat)
    requires i <= |sorted|
  {
    forall k :: 0 <= k < i ==> CoveredBy(rs, sorted[k]) || start <= sorted[k]
  }

  /** The state of the merging loop after i pages. */
  ghost predicate Merging(dirty: set<nat>, sorted: seq<nat>, rs: seq<Region>, i: nat, start: nat, end: nat) {
    && 0 < i <= |sorted| && end == sorted[i - 1] + PAGE
    && OpenBlock(dirty, start, end) && Closed(dirty, rs, start) && CoversFirst(sorted, rs, i, start)
    && TotalSize(rs) + (end - start) == 0x1000 * i
  }

  method Least(s: set<nat>) returns (m: nat)
    requires s != {}
    ensures m in s && forall q :: q in s ==> m <= q
  {
    m :| m in s;
    var rest := s - {m};
    while rest != {}
      invariant rest < s && m in s && m !in rest
      invariant forall q :: q in s && q !in rest ==> m <= q
      decreases rest
    {
      var q :| q in rest;
      rest := rest - {q};
      if q < m {
        m := q;
      }
    }
  }

  lemma NothingDirty(dirty: set<nat>)
    requires dirty == {}
    ensures AreTheRegions(dirty, [])
  {
    hide IsPage, PageOf;
    forall r
      ensures !IsMaximalBlock(dirty, r)
    {
      if IsMaximalBlock(dirty, r) {
        BlockStartIsDirty(dirty, r);
      }
    }
  }

  ghost predicate IsSortedDirty(dirty: set<nat>, sorted: seq<nat>) {
    Aligned(dirty) && Sorted(sorted) && (forall p :: p in sorted <==> p in dirty) && |sorted| == |dirty|
  }

  lemma MergingStarts(dirty: set<nat>, sorted: seq<nat>)
    requires IsSortedDirty(dirty, sorted) && sorted != []
    ensures Merging(dirty, sorted, [], 1, sorted[0], sorted[0] + PAGE)
  {
    hide IsPage;
    assert sorted[0] in dirty;
    NeighbourPages(sorted[0]);
    forall p | sorted[0] <= p < sorted[0] + PAGE && IsPage(p)
      ensures p in dirty
    {
      if sorted[0] < p {
        PagesAreApart(sorted[0], p);
      }
    }
    forall p | p in dirty
      ensures sorted[0] <= p
    {
      var k :| 0 <= k < |sorted| && sorted[k] == p;
    }
  }

  /** The next page is at least one page further on, and nothing dirty lies between. */
  lemma NextPage(dirty: set<nat>, sorted: seq<nat>, i: nat)
    requires IsSortedDirty(dirty, sorted) && 0 < i < |sorted|
    ensures IsPage(sorted[i]) && IsPage(sorted[i - 1]) && sorted[i - 1] + PAGE <= sorted[i] && sorted[i] in dirty
    ensures forall p :: p in dirty ==> p <= sorted[i - 1] || sorted[i] <= p
  {
    hide IsPage;
    assert sorted[i] in dirty && sorted[i - 1] in dirty;
    PagesAreApart(sorted[i - 1], sorted[i]);
    forall p | p in dirty
      ensures p <= sorted[i - 1] || sorted[i] <= p
    {
      var k :| 0 <= k < |sorted| && sorted[k] == p;
    }
  }

  lemma OpenBlockExtends(dirty: set<nat>, start: nat, end: nat)
    requires OpenBlock(dirty, start, end) && end in dirty
    ensures OpenBlock(dirty, start, end + PAGE)
  {
    hide IsPage;
    NeighbourPages(end);
    forall p | start <= p < end + PAGE && IsPage(p)
      ensures p in dirty
    {
      if p > end {
        PagesAreApart(end, p);
      }
    }
  }

  lemma MergingExtends(dirty: set<nat>, sorted: seq<nat>, rs: seq<Region>, i: nat, start: nat, end: nat)
    requires IsSortedDirty(dirty, sorted) && i < |sorted| && Merging(dirty, sorted, rs, i, start, end)
    requires sorted[i] <= end
    ensures Merging(dirty, sorted, rs, i + 1, start, sorted[i] + PAGE)
  {
    hide IsSortedDirty, Closed;
    OpenIsNonEmpty(dirty, start, end);
    hide OpenBlock;
    NextPage(dirty, sorted, i);
    OpenBlockExtends(dirty, start, end);
  }

  lemma OpenIsNonEmpty(dirty: set<nat>, start: nat, end: nat)
    requires OpenBlock(dirty, start, end)
    ensures start < end
  {
  }

  /** When the page after the open block is clean, the block is maximal and joins the closed ones. */
  lemma BlockCloses(dirty: set<nat>, rs: seq<Region>, start: nat, end: nat)
    requires OpenBlock(dirty, start, end) && Closed(dirty, rs, start) && end !in dirty
    ensures Closed(dirty, rs + [Region(start, end - start)], end + 1)
    ensures TotalSize(rs + [Region(start, end - start)]) == TotalSize(rs) + (end - start)
  {
    var block := Region(start, end - start);
    assert IsMaximalBlock(dirty, block);
    hide IsMaximalBlock, IsPage;
    assert (rs + [block])[..|rs|] == rs;
  }

  lemma CoverageCloses(sorted: seq<nat>, rs: seq<Region>, i: nat, start: nat, end: nat, next: nat)
    requires i <= |sorted| && CoversFirst(sorted, rs, i, start) && start < end
    requires forall k :: 0 <= k < i ==> sorted[k] < end
    ensures CoversFirst(sorted, rs + [Region(start, end - start)], i, next)
    ensures i < |sorted| && next <= sorted[i] ==> CoversFirst(sorted, rs + [Region(start, end - start)], i + 1, next)
    ensures forall k :: 0 <= k < i ==> CoveredBy(rs + [Region(start, end - start)], sorted[k])
  {
    var block := Region(start, end - start);
    forall k | 0 <= k < i
      ensures CoveredBy(rs + [block], sorted[k])
    {
      if CoveredBy(rs, sorted[k]) {
        var r :| r in rs && r.start <= sorted[k] < End(r);
        assert r in rs + [block];
      } else {
        assert block in rs + [block];
      }
    }
  }

  lemma MergingSplits(dirty: set<nat>, sorted: seq<nat>, rs: seq<Region>, i: nat, start: nat, end: nat)
    requires IsSortedDirty(dirty, sorted) && i < |sorted| && Merging(dirty, sorted, rs, i, start, end)
    requires end < sorted[i]
    ensures start < end
    ensures Merging(dirty, sorted, rs + [Region(start, end - start)], i + 1, sorted[i], sorted[i] + PAGE)
  {
    hide IsMaximalBlock, IsPage, OpenBlock, Closed, CoversFirst, TotalSize, IsSortedDirty;
    NextPage(dirty, sorted, i);
    OpenIsNonEmpty(dirty, start, end);
    BlockCloses(dirty, rs, start, end);
    BelowEnd(dirty, sorted, i);
    CoverageCloses(sorted, rs, i, start, end, sorted[i]);
    FreshBlock(dirty, sorted, i);
    ClosedEarlier(dirty, rs + [Region(start, end - start)], end + 1, sorted[i]);
  }

  lemma BelowEnd(dirty: set<nat>, sorted: seq<nat>, i: nat)
    requires IsSortedDirty(dirty, sorted) && 0 < i <= |sorted|
    ensures forall k :: 0 <= k < i ==> sorted[k] < sorted[i - 1] + PAGE
  {
    hide IsPage;
  }

  lemma ClosedEarlier(dirty: set<nat>, rs: seq<Region>, a: nat, b: nat)
    requires Closed(dirty, rs, a) && a <= b
    ensures Closed(dirty, rs, b)
  {
    hide IsMaximalBlock;
  }

  lemma FreshBlock(dirty: set<nat>, sorted: seq<nat>, i: nat)
    requires IsSortedDirty(dirty, sorted) && 0 < i < |sorted| && sorted[i - 1] + PAGE < sorted[i]
    ensures OpenBlock(dirty, sorted[i], sorted[i] + PAGE)
  {
    hide IsSortedDirty, IsPage;
    NextPage(dirty, sorted, i);
    NeighbourPages(sorted[i]);
    forall p | sorted[i] <= p < sorted[i] + PAGE && IsPage(p)
      ensures p in dirty
    {
      if sorted[i] < p {
        PagesAreApart(sorted[i], p);
      }
    }
  }

  lemma MergingFinishes(dirty: set<nat>, sorted: seq<nat>, rs: seq<Region>, start: nat, end: nat)
    requires IsSortedDirty(dirty, sorted) && Merging(dirty, sorted, rs, |sorted|, start, end)
    ensures start < end
    ensures AreTheRegions(dirty, rs + [Region(start, end - start)])
  {
    hide IsMaximalBlock, IsPage, OpenBlock, Closed, CoversFirst, TotalSize, IsSortedDirty;
    OpenIsNonEmpty(dirty, start, end);
    var all := rs + [Region(start, end - start)];
    EndIsClean(dirty, sorted);
    BlockCloses(dirty, rs, start, end);
    BelowEnd(dirty, sorted, |sorted|);
    CoverageCloses(sorted, rs, |sorted|, start, end, end);
    ClosedBlocks(dirty, all, end + 1);
    BlocksAreAll(dirty, sorted, all);
    BlocksCover(dirty, sorted, all);
    SortedSize(dirty, sorted);
  }

  lemma EndIsClean(dirty: set<nat>, sorted: seq<nat>)
    requires IsSortedDirty(dirty, sorted) && sorted != []
    ensures sorted[|sorted| - 1] + PAGE !in dirty
  {
    hide IsPage;
    forall p | p in dirty
      ensures p < sorted[|sorted| - 1] + PAGE
    {
      var k :| 0 <= k < |sorted| && sorted[k] == p;
    }
  }

  lemma ClosedBlocks(dirty: set<nat>, rs: seq<Region>, end: nat)
    requires Closed(dirty, rs, end)
    ensures Separated(rs) && forall r :: r in rs ==> IsMaximalBlock(dirty, r)
  {
  }

  lemma SortedSize(dirty: set<nat>, sorted: seq<nat>)
    requires IsSortedDirty(dirty, sorted)
    ensures |sorted| == |dirty|
  {
  }

  lemma BlocksAreAll(dirty: set<nat>, sorted: seq<nat>, rs: seq<Region>)
    requires IsSortedDirty(dirty, sorted)
    requires forall r :: r in rs ==> IsMaximalBlock(dirty, r)
    requires forall k :: 0 <= k < |sorted| ==> CoveredBy(rs, sorted[k])
    ensures forall r :: r in rs <==> IsMaximalBlock(dirty, r)
  {
    forall r | IsMaximalBlock(dirty, r)
      ensures r in rs
    {
      BlockStartIsDirty(dirty, r);
      hide IsMaximalBlock, IsPage;
      var k :| 0 <= k < |sorted| && sorted[k] == r.start;
      var s :| s in rs && s.start <= r.start < End(s);
      BlocksAreEqual(dirty, r, s, r.start);
    }
  }

  lemma BlockStartIsDirty(dirty: set<nat>, r: Region)
    requires IsMaximalBlock(dirty, r)
    ensures r.start in dirty && r.start < End(r)
  {
  }

  lemma BlocksCover(dirty: set<nat>, sorted: seq<nat>, rs: seq<Region>)
    requires IsSortedDirty(dirty, sorted)
    requires forall r :: r in rs ==> IsMaximalBlock(dirty, r)
    requires forall k :: 0 <= k < |sorted| ==> CoveredBy(rs, sorted[k])
    ensures forall a: nat :: CoveredBy(rs, a) <==> PageOf(a) in dirty
  {
    forall a: nat
      ensures CoveredBy(rs, a) <==> PageOf(a) in dirty
    {
      hide IsPage, PageOf;
      if CoveredBy(rs, a) {
        var r :| r in rs && r.start <= a < End(r);
        BlockPages(dirty, r, a);
      }
      if PageOf(a) in dirty {
        var k :| 0 <= k < |sorted| && sorted[k] == PageOf(a);
        var r :| r in rs && r.start <= PageOf(a) < End(r);
        PagesAreApart(PageOf(a), End(r));
        assert r.start <= a < End(r);
      }
    }
  }

  lemma BlockPages(dirty: set<nat>, r: Region, a: nat)
    requires IsMaximalBlock(dirty, r) && r.start <= a < End(r)
    ensures PageOf(a) in dirty
  {
    hide IsPage, PageOf;
    if PageOf(a) < r.start {
      PagesAreApart(PageOf(a), r.start);
    }
  }

  /** The pages from first up to but not including page, and none past last. */
  function PagesUpTo(first: nat, page: nat, last: nat): set<nat> {
    set p | first <= p < page && p <= last && IsPage(p)
  }

  lemma NoPages(first: nat, last: nat)
    ensures PagesUpTo(first, first, last) == {}
  {
  }

  lemma NextUpTo(first: nat, page: nat, last: nat)
    requires IsPage(page) && first <= page <= last
    ensures IsPage(page + PAGE) && PagesUpTo(first, page + PAGE, last) == PagesUpTo(first, page, last) + {page}
  {
    hide IsPage;
    NeighbourPages(page);
    forall p | page < p < page + PAGE
      ensures !IsPage(p)
    {
      if IsPage(p) {
        PagesAreApart(page, p);
      }
    }
  }

  lemma AllUpTo(address: nat, size: nat, page: nat)
    requires 0 < address + size && page > PageOf(address + size - 1)
    ensures PagesUpTo(PageOf(address), page, PageOf(address + size - 1)) == PagesOf(address, size)
  {
    hide PageOf, IsPage;
  }

  class Tracker {
    var dirtyPages: set<nat>

    constructor ()
      ensures dirtyPages == {}
    {
      dirtyPages := {};
    }

    method Clear()
      modifies this
      ensures dirtyPages == {}
    {
      dirtyPages := {};
    }

    method RecordWrite(address: nat, size: nat)
      requires NonWrapping(address, size)
      modifies this
      ensures dirtyPages == old(dirtyPages) + PagesOf(address, size)
    {
      hide PageOf, IsPage;
      var firstPage := PageOf(address);
      var lastPage := PageOf(address + size - 1);
      var page := firstPage;
      NoPages(firstPage, lastPage);
      while page <= lastPage
        invariant IsPage(page) && firstPage <= page
        invariant dirtyPages == old(dirtyPages) + PagesUpTo(firstPage, page, lastPage)
        decreases lastPage - page
      {
        NextUpTo(firstPage, page, lastPage);
        dirtyPages := dirtyPages + {page};
        page := page + PAGE;
      }
      AllUpTo(address, size, page);
    }

    /** std::sort of the elements of the set. */
    method SortPages() returns (sorted: seq<nat>)
      requires Aligned(dirtyPages)
      ensures IsSortedDirty(dirtyPages, sorted)
    {
      hide IsPage;
      sorted := [];
      var rest := dirtyPages;
      while rest != {}
        invariant rest <= dirtyPages && Sorted(sorted) && |sorted| + |rest| == |dirtyPages|
        invariant forall p :: p in sorted <==> p in dirtyPages && p !in rest
        invariant forall k, q :: 0 <= k < |sorted| && q in rest ==> sorted[k] < q
        decreases rest
      {
        var least := Least(rest);
        sorted, rest := sorted + [least], rest - {least};
      }
    }

    method GetDirtyRegions() returns (regions: seq<Region>)
      requires Aligned(dirtyPages)
      ensures AreTheRegions(dirtyPages, regions)
    {
      if dirtyPages == {} {
        NothingDirty(dirtyPages);
        return [];
      }
      var sorted := SortPages();
      SortedSize(dirtyPages, sorted);
      regions := MergePages(sorted, dirtyPages);
    }
  }

  /** The loop of get_dirty_regions over the sorted pages. */
  method MergePages(sorted: seq<nat>, ghost dirty: set<nat>) returns (regions: seq<Region>)
    requires IsSortedDirty(dirty, sorted) && sorted != []
    ensures AreTheRegions(dirty, regions)
  {
    hide Merging, AreTheRegions, IsSortedDirty;
    regions := [];
    var regionStart: nat := sorted[0];
    var regionEnd: nat := sorted[0] + PAGE;
    MergingStarts(dirty, sorted);
    for i := 1 to |sorted|
      invariant Merging(dirty, sorted, regions, i, regionStart, regionEnd)
    {
      if sorted[i] <= regionEnd {
        MergingExtends(dirty, sorted, regions, i, regionStart, regionEnd);
        regionEnd := sorted[i] + PAGE;
      } else {
        MergingSplits(dirty, sorted, regions, i, regionStart, regionEnd);
        regions := regions + [Region(regionStart, regionEnd - regionStart)];
        regionStart := sorted[i];
        regionEnd := sorted[i] + PAGE;
      }
    }
    MergingFinishes(dirty, sorted, regions, regionStart, regionEnd);
    regions := regions + [Region(regionStart, regionEnd - regionStart)];
  }
}
