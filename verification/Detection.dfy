/** From guest writes to found strings: dump_tracked_writes over the dirty-page index and the scanner. */
module Detection {
  import opened Engine
  import opened WriteTracker
  import opened Strings
  import opened Scanner

  const MAX_REGION_SCAN: nat := 0x10000

  function ScanSize(r: Region): nat {
    if r.size < MAX_REGION_SCAN then r.size else MAX_REGION_SCAN
  }

  predicate Readable(m: Memory, r: Region) {
    Mapped(m, r.start, ScanSize(r))
  }

  function BufferOf(m: Memory, r: Region): seq<byte>
    requires Readable(m, r)
  {
    Bytes(m, r.start, ScanSize(r))
  }

  /** The run lies in the scanned part of region r and leaves this text. */
  ghost predicate Yields(m: Memory, r: Region, run: Run, text: seq<byte>) {
    Readable(m, r) && Qualifies(BufferOf(m, r), run) && text != []
    && text == Normal(BufferOf(m, r)[run.start..run.end])
  }

  /** Some maximal block of dirty pages yields the text. */
  ghost predicate Reported(m: Memory, dirty: set<nat>, text: seq<byte>) {
    exists r, run :: IsMaximalBlock(dirty, r) && Yields(m, r, run, text)
  }

  // ----- What pushing the runs of one buffer adds

  lemma {:induction false} PushRunsAdds(strings: StringList, rip: nat, base: nat, buffer: seq<byte>, runs: seq<Run>, t: seq<byte>)
    requires forall r :: r in runs ==> r.start <= r.end <= |buffer|
    ensures t in PushRuns(strings, rip, base, buffer, runs) <==>
            t in strings || (t != [] && exists r :: r in runs && t == Normal(buffer[r.start..r.end]))
    ensures t in strings ==> PushRuns(strings, rip, base, buffer, runs)[t] == strings[t]
    ensures t !in strings && t in PushRuns(strings, rip, base, buffer, runs) ==>
            exists r :: r in runs && t == Normal(buffer[r.start..r.end])
                        && PushRuns(strings, rip, base, buffer, runs)[t] == Found(rip, base + r.start, t)
    decreases |runs|
  {
    hide Normal;
    if runs != [] {
      var init, last := runs[..|runs| - 1], runs[|runs| - 1];
      assert runs == init + [last];
      PushRunsAdds(strings, rip, base, buffer, init, t);
    }
  }

  // ----- The dump

  /** After the first n regions: old entries are kept, and exactly the texts of those regions were added. */
  ghost predicate Dumped(m: Memory, rip: nat, before: StringList, after: StringList, regions: seq<Region>, n: nat)
    requires n <= |regions|
  {
    && (forall t :: t in after <==> t in before || YieldedBy(m, regions, n, t))
    && (forall t :: t in before ==> after[t] == before[t])
    && (forall t :: t in after && t !in before ==> Located(m, rip, regions, n, t, after[t]))
  }

  ghost predicate YieldedBy(m: Memory, regions: seq<Region>, n: nat, t: seq<byte>)
    requires n <= |regions|
  {
    exists k, run :: 0 <= k < n && Yields(m, regions[k], run, t)
  }

  ghost predicate Located(m: Memory, rip: nat, regions: seq<Region>, n: nat, t: seq<byte>, f: Found)
    requires n <= |regions|
  {
    exists k, run :: 0 <= k < n && Yields(m, regions[k], run, t) && f == Found(rip, regions[k].start + run.start, t)
  }

  lemma YieldsPersist(m: Memory, rip: nat, regions: seq<Region>, n: nat, t: seq<byte>)
    requires n < |regions|
    ensures YieldedBy(m, regions, n, t) ==> YieldedBy(m, regions, n + 1, t)
    ensures forall f :: Located(m, rip, regions, n, t, f) ==> Located(m, rip, regions, n + 1, t, f)
  {
    hide Yields;
    if YieldedBy(m, regions, n, t) {
      var k, run :| 0 <= k < n && Yields(m, regions[k], run, t);
      assert 0 <= k < n + 1;
    }
    forall f | Located(m, rip, regions, n, t, f)
      ensures Located(m, rip, regions, n + 1, t, f)
    {
      var k, run :| 0 <= k < n && Yields(m, regions[k], run, t) && f == Found(rip, regions[k].start + run.start, t);
      assert 0 <= k < n + 1;
    }
  }

  lemma YieldsSplit(m: Memory, regions: seq<Region>, n: nat, t: seq<byte>)
    requires n < |regions| && YieldedBy(m, regions, n + 1, t)
    ensures YieldedBy(m, regions, n, t) || exists run :: Yields(m, regions[n], run, t)
  {
    hide Yields;
    var k, run :| 0 <= k < n + 1 && Yields(m, regions[k], run, t);
    if k < n {
      assert YieldedBy(m, regions, n, t);
    }
  }

  lemma UnreadableYieldsNothing(m: Memory, r: Region)
    requires !Readable(m, r)
    ensures forall run, t :: !Yields(m, r, run, t)
  {
    hide Normal, Qualifies, Readable;
  }

  lemma DumpSkips(m: Memory, rip: nat, before: StringList, after: StringList, regions: seq<Region>, n: nat)
    requires n < |regions| && Dumped(m, rip, before, after, regions, n) && !Readable(m, regions[n])
    ensures Dumped(m, rip, before, after, regions, n + 1)
  {
    hide Yields, YieldedBy, Located, Readable;
    UnreadableYieldsNothing(m, regions[n]);
    forall t
      ensures YieldedBy(m, regions, n, t) == YieldedBy(m, regions, n + 1, t)
      ensures forall f :: Located(m, rip, regions, n, t, f) ==> Located(m, rip, regions, n + 1, t, f)
    {
      YieldsPersist(m, rip, regions, n, t);
      if YieldedBy(m, regions, n + 1, t) {
        YieldsSplit(m, regions, n, t);
      }
    }
  }

  /** What the runs of one readable region yield is what the definition says. */
  lemma RunsYield(m: Memory, r: Region, runs: seq<Run>, t: seq<byte>)
    requires Readable(m, r) && AreTheRuns(BufferOf(m, r), runs)
    requires forall q :: q in runs ==> q.start <= q.end <= |BufferOf(m, r)|
    ensures (exists run :: Yields(m, r, run, t)) <==>
            t != [] && exists q :: q in runs && t == Normal(BufferOf(m, r)[q.start..q.end])
    ensures forall q :: q in runs && t != [] && t == Normal(BufferOf(m, r)[q.start..q.end]) ==> Yields(m, r, q, t)
  {
    hide Normal, Readable, BufferOf, Qualifies, InOrder;
    if run :| Yields(m, r, run, t) {
      assert run in runs;
    }
    if t != [] && exists q :: q in runs && t == Normal(BufferOf(m, r)[q.start..q.end]) {
      var q :| q in runs && t == Normal(BufferOf(m, r)[q.start..q.end]);
      assert Yields(m, r, q, t);
    }
  }

  lemma DumpScans(m: Memory, rip: nat, before: StringList, mid: StringList, after: StringList,
                  regions: seq<Region>, n: nat, runs: seq<Run>)
    requires n < |regions| && Dumped(m, rip, before, mid, regions, n) && Readable(m, regions[n])
    requires AreTheRuns(BufferOf(m, regions[n]), runs)
    requires forall r :: r in runs ==> r.start <= r.end <= |BufferOf(m, regions[n])|
    requires after == PushRuns(mid, rip, regions[n].start, BufferOf(m, regions[n]), runs)
    ensures Dumped(m, rip, before, after, regions, n + 1)
  {
    forall t
      ensures t in after <==> t in before || YieldedBy(m, regions, n + 1, t)
      ensures t in before ==> after[t] == before[t]
      ensures t in after && t !in before ==> Located(m, rip, regions, n + 1, t, after[t])
    {
      DumpScansText(m, rip, before, mid, after, regions, n, runs, t);
    }
  }

  lemma DumpScansText(m: Memory, rip: nat, before: StringList, mid: StringList, after: StringList,
                      regions: seq<Region>, n: nat, runs: seq<Run>, t: seq<byte>)
    requires n < |regions| && Dumped(m, rip, before, mid, regions, n) && Readable(m, regions[n])
    requires AreTheRuns(BufferOf(m, regions[n]), runs)
    requires forall r :: r in runs ==> r.start <= r.end <= |BufferOf(m, regions[n])|
    requires after == PushRuns(mid, rip, regions[n].start, BufferOf(m, regions[n]), runs)
    ensures t in after <==> t in before || YieldedBy(m, regions, n + 1, t)
    ensures t in before ==> after[t] == before[t]
    ensures t in after && t !in before ==> Located(m, rip, regions, n + 1, t, after[t])
  {
    hide Normal, Qualifies, Readable, BufferOf, PushRuns, AreTheRuns, Yields;
    var buffer := BufferOf(m, regions[n]);
    PushRunsAdds(mid, rip, regions[n].start, buffer, runs, t);
    RunsYield(m, regions[n], runs, t);
    YieldsPersist(m, rip, regions, n, t);
    if YieldedBy(m, regions, n + 1, t) {
      YieldsSplit(m, regions, n, t);
    }
    if t in after && t !in mid {
      var r :| r in runs && t == Normal(buffer[r.start..r.end]) && after[t] == Found(rip, regions[n].start + r.start, t);
      assert Yields(m, regions[n], r, t);
      assert YieldedBy(m, regions, n + 1, t);
    }
  }

  lemma DumpStarts(m: Memory, rip: nat, before: StringList, regions: seq<Region>)
    ensures Dumped(m, rip, before, before, regions, 0)
  {
    hide Yields;
  }

  /** emulator::dump_tracked_writes */
  method DumpTrackedWrites(uc: Uc, tracker: Tracker, detector: Detector, rip: nat)
    requires Aligned(tracker.dirtyPages)
    modifies detector
    ensures forall t :: t in detector.strings <==> t in old(detector.strings) || Reported(uc.mem, tracker.dirtyPages, t)
    ensures forall t :: t in old(detector.strings) ==> detector.strings[t] == old(detector.strings)[t]
    ensures forall t :: t in detector.strings && t !in old(detector.strings) ==>
              exists r, run :: IsMaximalBlock(tracker.dirtyPages, r) && Yields(uc.mem, r, run, t)
                               && detector.strings[t] == Found(rip, r.start + run.start, t)
  {
    hide Yields, IsMaximalBlock, Dumped;
    if tracker.dirtyPages == {} {
      NothingReported(uc.mem, tracker.dirtyPages);
      return;
    }
    var regions := tracker.GetDirtyRegions();
    DumpStarts(uc.mem, rip, detector.strings, regions);
    for n := 0 to |regions|
      invariant Dumped(uc.mem, rip, old(detector.strings), detector.strings, regions, n)
    {
      var scanSize := ScanSize(regions[n]);
      var ok, buffer := uc.MemRead(regions[n].start, scanSize);
      if !ok {
        DumpSkips(uc.mem, rip, old(detector.strings), detector.strings, regions, n);
        continue;
      }
      ghost var mid := detector.strings;
      ghost var runs := detector.ScanBufferForStrings(rip, regions[n].start, buffer);
      DumpScans(uc.mem, rip, old(detector.strings), mid, detector.strings, regions, n, runs);
    }
    DumpEnds(uc.mem, rip, old(detector.strings), detector.strings, tracker.dirtyPages, regions);
  }

  lemma NothingReported(m: Memory, dirty: set<nat>)
    requires dirty == {}
    ensures forall t :: !Reported(m, dirty, t)
  {
    hide Yields, IsMaximalBlock;
    NothingDirty(dirty);
  }

  lemma RegionsAreBlocks(dirty: set<nat>, regions: seq<Region>)
    requires AreTheRegions(dirty, regions)
    ensures forall r :: r in regions <==> IsMaximalBlock(dirty, r)
  {
    hide IsMaximalBlock;
  }

  lemma AllYields(m: Memory, rip: nat, dirty: set<nat>, regions: seq<Region>, t: seq<byte>)
    requires forall r :: r in regions <==> IsMaximalBlock(dirty, r)
    ensures YieldedBy(m, regions, |regions|, t) <==> Reported(m, dirty, t)
    ensures forall f :: Located(m, rip, regions, |regions|, t, f) ==>
              exists r, run :: IsMaximalBlock(dirty, r) && Yields(m, r, run, t) && f == Found(rip, r.start + run.start, t)
  {
    hide Yields, IsMaximalBlock;
    if YieldedBy(m, regions, |regions|, t) {
      var k, run :| 0 <= k < |regions| && Yields(m, regions[k], run, t);
      assert regions[k] in regions;
    }
    if Reported(m, dirty, t) {
      var r, run :| IsMaximalBlock(dirty, r) && Yields(m, r, run, t);
      var k :| 0 <= k < |regions| && regions[k] == r;
    }
    forall f | Located(m, rip, regions, |regions|, t, f)
      ensures exists r, run :: IsMaximalBlock(dirty, r) && Yields(m, r, run, t) && f == Found(rip, r.start + run.start, t)
    {
      var k, run :| 0 <= k < |regions| && Yields(m, regions[k], run, t) && f == Found(rip, regions[k].start + run.start, t);
      assert regions[k] in regions;
    }
  }

  lemma DumpEnds(m: Memory, rip: nat, before: StringList, after: StringList, dirty: set<nat>, regions: seq<Region>)
    requires AreTheRegions(dirty, regions) && Dumped(m, rip, before, after, regions, |regions|)
    ensures forall t :: t in after <==> t in before || Reported(m, dirty, t)
    ensures forall t :: t in before ==> after[t] == before[t]
    ensures forall t :: t in after && t !in before ==>
              exists r, run :: IsMaximalBlock(dirty, r) && Yields(m, r, run, t) && after[t] == Found(rip, r.start + run.start, t)
  {
    hide Yields, IsMaximalBlock, AreTheRegions, YieldedBy, Located, Reported;
    RegionsAreBlocks(dirty, regions);
    forall t
      ensures YieldedBy(m, regions, |regions|, t) <==> Reported(m, dirty, t)
      ensures forall f :: Located(m, rip, regions, |regions|, t, f) ==>
                exists r, run :: IsMaximalBlock(dirty, r) && Yields(m, r, run, t) && f == Found(rip, r.start + run.start, t)
    {
      AllYields(m, rip, dirty, regions, t);
    }
  }

  // ----- The blocks in terms of the bytes written

  /** r is a largest range of whole pages on every one of which the log changes a byte. */
  ghost predicate IsLogBlock(log: seq<Write>, r: Region) {
    && r.size > 0 && IsPage(r.start) && IsPage(End(r))
    && (forall b: nat :: r.start <= b < End(r) ==> TouchesPageOf(log, b))
    && (r.start > 0 ==> !TouchesPageOf(log, r.start - 1))
    && !TouchesPageOf(log, End(r))
  }

  /** The maximal blocks of the index are those of the write log. */
  lemma BlocksOfLog(log: seq<Write>, r: Region)
    requires AllNonWrapping(log)
    ensures IsMaximalBlock(DirtyAfter(log), r) <==> IsLogBlock(log, r)
  {
    hide TouchesPageOf, PageOf, IsPage;
    var dirty := DirtyAfter(log);
    forall b: nat
      ensures PageOf(b) in dirty <==> TouchesPageOf(log, b)
    {
      IndexAgreesWithLog(log, b);
    }
    hide DirtyAfter;
    if IsPage(r.start) && IsPage(End(r)) {
      PageOfPage(End(r), End(r));
      if r.start > 0 {
        PageBefore(r.start);
      }
      if forall p :: r.start <= p < End(r) && IsPage(p) ==> p in dirty {
        forall b: nat | r.start <= b < End(r)
          ensures TouchesPageOf(log, b)
        {
          if PageOf(b) < r.start {
            PagesAreApart(PageOf(b), r.start);
          }
        }
      }
      if forall b: nat :: r.start <= b < End(r) ==> TouchesPageOf(log, b) {
        forall p | r.start <= p < End(r) && IsPage(p)
          ensures p in dirty
        {
          PageOfPage(p, p);
          assert TouchesPageOf(log, p);
        }
      }
    }
  }

  lemma PageBefore(p: nat)
    requires IsPage(p) && p > 0
    ensures p >= PAGE && PageOf(p - 1) == p - PAGE
  {
    PagesAreApart(0, p);
    NeighbourPages(p);
    PageOfPage(p - PAGE, p - 1);
  }

  /**
   * End to end: after any non-wrapping write log a dump reports a text exactly when it is what is left of a
   * qualifying run in the first 0x10000 bytes of a largest range of pages the log touched.
   */
  lemma ReportedByLog(m: Memory, log: seq<Write>, text: seq<byte>)
    requires AllNonWrapping(log)
    ensures Reported(m, DirtyAfter(log), text) <==> exists r, run :: IsLogBlock(log, r) && Yields(m, r, run, text)
  {
    hide Yields, IsMaximalBlock, IsLogBlock;
    if Reported(m, DirtyAfter(log), text) {
      var r, run :| IsMaximalBlock(DirtyAfter(log), r) && Yields(m, r, run, text);
      BlocksOfLog(log, r);
    }
    if r, run :| IsLogBlock(log, r) && Yields(m, r, run, text) {
      BlocksOfLog(log, r);
    }
  }

  /** write_tracker::clear, then the write hook once for every write of the log. */
  method TrackWrites(tracker: Tracker, log: seq<Write>)
    requires AllNonWrapping(log)
    modifies tracker
    ensures tracker.dirtyPages == DirtyAfter(log) && Aligned(tracker.dirtyPages)
  {
    hide DirtyAfter, PagesOf;
    tracker.Clear();
    NoWrites();
    for i := 0 to |log|
      invariant AllNonWrapping(log[..i]) && tracker.dirtyPages == DirtyAfter(log[..i])
    {
      tracker.RecordWrite(log[i].address, log[i].size);
      OneMoreWrite(log, i);
    }
    assert log[..|log|] == log;
    IndexAgreesWithLog(log, 0);
  }

  lemma NoWrites()
    ensures DirtyAfter([]) == {}
  {
  }

  lemma OneMoreWrite(log: seq<Write>, i: nat)
    requires i < |log| && AllNonWrapping(log)
    ensures AllNonWrapping(log[..i]) && AllNonWrapping(log[..i + 1])
    ensures DirtyAfter(log[..i + 1]) == DirtyAfter(log[..i]) + PagesOf(log[i].address, log[i].size)
  {
    assert log[..i + 1][..i] == log[..i];
  }

  /**
   * End to end on the objects: recording any non-wrapping write log and dumping reports exactly the texts left of
   * qualifying runs in the scanned part of the ranges of pages the log touched.
   */
  method TrackAndDump(uc: Uc, tracker: Tracker, detector: Detector, log: seq<Write>, rip: nat)
    requires AllNonWrapping(log)
    modifies tracker, detector
    ensures forall t :: t in detector.strings <==>
              t in old(detector.strings) || exists r, run :: IsLogBlock(log, r) && Yields(uc.mem, r, run, t)
    ensures forall t :: t in old(detector.strings) ==> detector.strings[t] == old(detector.strings)[t]
  {
    hide IsLogBlock, Yields, IsMaximalBlock, Reported, DirtyAfter, AllNonWrapping;
    TrackWrites(tracker, log);
    DumpTrackedWrites(uc, tracker, detector, rip);
    forall t
      ensures Reported(uc.mem, DirtyAfter(log), t) <==> exists r, run :: IsLogBlock(log, r) && Yields(uc.mem, r, run, t)
    {
      ReportedByLog(uc.mem, log, t);
    }
  }

  predicate Printable(c: int) {
    0x20 <= c <= 0x7E || c == 9 || c == 10 || c == 13
  }

  /** [first, end) holds printable bytes only, a zero follows, and nothing printable comes right before, from lowest on. */
  ghost predicate IsRunAt(m: Memory, lowest: nat, first: nat, end: nat)
    requires lowest <= first <= end && Mapped(m, lowest, end + 1 - lowest)
  {
    && (forall x :: first <= x < end ==> Printable(m[x])) && m[end] == 0
    && (first > lowest ==> !Printable(m[first - 1]))
  }

  /**
   * What is reported, in terms of guest memory: of a region whose first 0x10000 bytes are mapped, every longest run of
   * four or more printable bytes followed by a zero in them, escaped and trimmed, unless nothing is left of it.
   */
  ghost predicate ReportsAt(m: Memory, r: Region, first: nat, end: nat, t: seq<byte>) {
    var size := if r.size < 0x10000 then r.size else 0x10000;
    && Mapped(m, r.start, size) && r.start <= first && first + 4 <= end < r.start + size
    && IsRunAt(m, r.start, first, end)
    && t != [] && t == Trim(Escape(Bytes(m, first, end - first)))
  }

  lemma YieldsOnMemory(m: Memory, r: Region, run: Run, t: seq<byte>)
    ensures Yields(m, r, run, t) <==> ReportsAt(m, r, r.start + run.start, r.start + run.end, t)
  {
    hide *;
    var size := if r.size < 0x10000 then r.size else 0x10000;
    if Mapped(m, r.start, size) && run.start + 4 <= run.end < size {
      var first, end := r.start + run.start, r.start + run.end;
      BytesInside(m, r.start, size, run.start, run.end);
      QualifiesOnMemory(m, r.start, size, run);
      YieldsMeans(m, r, run, t, size);
      assert end + 1 - r.start == run.end + 1 && end - first == run.end - run.start;
      ReportsMeans(m, r, first, end, t);
    } else {
      NothingThere(m, r, run, t);
    }
  }

  lemma YieldsMeans(m: Memory, r: Region, run: Run, t: seq<byte>, size: nat)
    requires size == (if r.size < 0x10000 then r.size else 0x10000) && Mapped(m, r.start, size)
    requires run.start + 4 <= run.end < size
    ensures Yields(m, r, run, t) <==>
            Qualifies(Bytes(m, r.start, size), run)
            && t != [] && t == Trim(Escape(Bytes(m, r.start, size)[run.start..run.end]))
  {
    hide Qualifies, Trim, Escape, Mapped, Bytes;
  }

  lemma ReportsMeans(m: Memory, r: Region, first: nat, end: nat, t: seq<byte>)
    requires Mapped(m, r.start, if r.size < 0x10000 then r.size else 0x10000) && r.start <= first
    requires first + 4 <= end < r.start + if r.size < 0x10000 then r.size else 0x10000
    requires Mapped(m, r.start, end + 1 - r.start) && Mapped(m, first, end - first)
    ensures ReportsAt(m, r, first, end, t) <==>
            IsRunAt(m, r.start, first, end) && t != [] && t == Trim(Escape(Bytes(m, first, end - first)))
  {
    hide IsRunAt, Trim, Escape, Mapped, Bytes;
  }

  lemma NothingThere(m: Memory, r: Region, run: Run, t: seq<byte>)
    requires var size := if r.size < 0x10000 then r.size else 0x10000;
      !(Mapped(m, r.start, size) && run.start + 4 <= run.end < size)
    ensures !Yields(m, r, run, t) && !ReportsAt(m, r, r.start + run.start, r.start + run.end, t)
  {
    hide IsRunAt, Trim, Escape, Mapped, Bytes;
  }

  lemma QualifiesOnMemory(m: Memory, a: nat, size: nat, run: Run)
    requires Mapped(m, a, size) && run.start + 4 <= run.end < size
    ensures Qualifies(Bytes(m, a, size), run) <==> IsRunAt(m, a, a + run.start, a + run.end)
  {
    var buffer := Bytes(m, a, size);
    if IsRunAt(m, a, a + run.start, a + run.end) {
      forall k | run.start <= k < run.end
        ensures IsAsciiPrintable(buffer[k])
      {
        assert Printable(m[a + k]);
      }
    }
    if Qualifies(buffer, run) {
      forall x | a + run.start <= x < a + run.end
        ensures Printable(m[x])
      {
        assert IsAsciiPrintable(buffer[x - a]);
      }
    }
  }

  lemma BytesInside(m: Memory, a: nat, size: nat, i: nat, j: nat)
    requires Mapped(m, a, size) && i <= j <= size
    ensures Mapped(m, a + i, j - i) && Bytes(m, a, size)[i..j] == Bytes(m, a + i, j - i)
    ensures j < size ==> Mapped(m, a, j + 1)
  {
    var all, part := Bytes(m, a, size), Bytes(m, a + i, j - i);
    forall k | i <= k < j
      ensures all[k] == part[k - i]
    {
      assert part[k - i] == m[a + i + (k - i)];
    }
  }
}
