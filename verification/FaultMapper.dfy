/** On-demand page mapping (emulator::map_fault_region and its helpers). */
module FaultMapper {
  import opened Engine
  import opened WriteTracker

  const STACK_BASE: nat := 0x7FFF0000
  const STACK_SIZE: nat := 0x100000
  const MAX_TRANSIENT: nat := 2048

  function PageRange(p: int): set<int> {
    Range(p, PAGE)
  }

  /** The addresses of all the pages. */
  function Union(pages: seq<nat>): set<int> {
    set p, x | p in pages && x in PageRange(p) :: x
  }

  ghost predicate Distinct(pages: seq<nat>) {
    forall i, j :: 0 <= i < j < |pages| ==> pages[i] != pages[j]
  }

  /** Pages are mapped whole or not at all. */
  ghost predicate WholePages(keys: set<int>) {
    forall p: nat, x: int :: IsPage(p) && x in PageRange(p) ==> (x in keys <==> p in keys)
  }

  /** What holds of the mapped addresses, those mapped at construction and the transient pages. */
  ghost predicate Consistent(keys: set<int>, core: set<int>, transient: seq<nat>) {
    && Distinct(transient) && |transient| <= MAX_TRANSIENT
    && (forall p :: p in transient ==> IsPage(p))
    && WholePages(core) && WholePages(keys)
    && keys == core + Union(transient) && core !! Union(transient)
  }

  lemma PageRangesAreApart(p: nat, q: nat, x: int)
    requires IsPage(p) && IsPage(q) && x in PageRange(p) && x in PageRange(q)
    ensures p == q
  {
    hide IsPage;
    if p < q {
      PagesAreApart(p, q);
    } else if q < p {
      PagesAreApart(q, p);
    }
  }

  lemma UnionGrows(pages: seq<nat>, p: nat)
    ensures Union(pages + [p]) == Union(pages) + PageRange(p)
  {
    hide PageRange;
    forall x
      ensures x in Union(pages + [p]) <==> x in Union(pages) || x in PageRange(p)
    {
      if x in Union(pages) {
        var q :| q in pages && x in PageRange(q);
        assert q in pages + [p];
      }
      if x in PageRange(p) {
        assert p in pages + [p];
      }
    }
  }

  /** Mapping one more unmapped page keeps everything consistent. */
  lemma MapKeepsConsistent(keys: set<int>, core: set<int>, transient: seq<nat>, p: nat)
    requires Consistent(keys, core, transient) && IsPage(p) && p !in keys && |transient| < MAX_TRANSIENT
    ensures Consistent(keys + PageRange(p), core, transient + [p])
    ensures forall x :: x in PageRange(p) ==> x !in keys
  {
    hide IsPage, PageRange;
    UnionGrows(transient, p);
    PageHoldsItself(p);
    assert forall x :: x in PageRange(p) ==> x !in keys;
    forall q | q in transient
      ensures q != p
    {
      PageHoldsItself(q);
      assert q in Union(transient);
    }
    forall q: nat, x: int | IsPage(q) && x in PageRange(q)
      ensures x in keys + PageRange(p) <==> q in keys + PageRange(p)
    {
      PageHoldsItself(q);
      if x in PageRange(p) {
        PageRangesAreApart(p, q, x);
      }
      if q in PageRange(p) {
        PageRangesAreApart(p, q, q);
      }
    }
  }

  lemma PageHoldsItself(p: nat)
    ensures p in PageRange(p)
  {
  }

  /** The pages of a fault: from that of its first byte to that of its last. */
  function FaultRange(address: nat, size: nat): set<int>
    requires size > 0
  {
    Range(PageOf(address), PageOf(address + size - 1) + PAGE - PageOf(address))
  }

  lemma PageOverlap(keys: set<int>, core: set<int>, transient: seq<nat>, page: nat)
    requires Consistent(keys, core, transient) && IsPage(page)
    ensures (exists x :: page <= x < page + PAGE && x in keys) <==> page in keys
    ensures page in keys ==> keys + PageRange(page) == keys
  {
    assert page in PageRange(page);
    forall x | x in PageRange(page)
      ensures x in keys <==> page in keys
    {
    }
    assert forall x :: page <= x < page + PAGE ==> Within(x, page, PAGE);
  }

  lemma TransientIsMapped(keys: set<int>, core: set<int>, transient: seq<nat>, page: nat)
    requires Consistent(keys, core, transient) && page in transient
    ensures page in keys
  {
    PageHoldsItself(page);
    assert page in Union(transient);
  }

  lemma RangeGrows(start: nat, page: nat)
    requires start <= page
    ensures Range(start, page - start) + PageRange(page) == Range(start, page + PAGE - start)
  {
    assert forall x :: Within(x, start, page + PAGE - start) <==> Within(x, start, page - start) || Within(x, page, PAGE);
  }

  /** In the non-wrapping range the loop ends right after the page of the last byte. */
  lemma FaultEnd(address: nat, size: nat)
    requires 0 < size && address + size - 1 + PAGE < TOP
    ensures PageOf(((address + (size - 1)) % TOP + PAGE) % TOP) == PageOf(address + size - 1) + PAGE
    ensures PageOf(address) < PageOf(address + size - 1) + PAGE
  {
    hide IsPage, PageOf;
    var last := address + size - 1;
    NeighbourPages(PageOf(last));
    PageOfPage(PageOf(last) + PAGE, last + PAGE);
    PageOfMonotone(address, last);
  }

  lemma TopPageEnd(address: nat, size: nat)
    requires 0 < size && address + size - 1 < TOP <= address + size - 1 + PAGE
    ensures PageOf(((address + (size - 1)) % TOP + PAGE) % TOP) == 0
  {
    hide IsPage, PageOf;
    PageOfPage(0, address + size - 1 + PAGE - TOP);
  }

  /** Where the end of the access itself passes 2^64, at most the page of its first byte is looked at. */
  lemma WrappedFaultEnd(address: nat, size: nat)
    requires address < TOP && 0 < size < TOP <= address + size - 1
    ensures var end := PageOf(((address + (size - 1)) % TOP + PAGE) % TOP);
            if OnePageWrap(address, size) then end == PageOf(address) + PAGE else end <= PageOf(address)
  {
    hide IsPage, PageOf;
    var last := address + size - 1 - TOP;
    PageOfMonotone(last, address);
    NeighbourPages(PageOf(last));
    if last + PAGE < TOP {
      PageOfPage(PageOf(last) + PAGE, last + PAGE);
      if PageOf(last) < PageOf(address) {
        PagesAreApart(PageOf(last), PageOf(address));
      } else {
        TopIsPage();
        PagesAreApart(PageOf(address), TOP);
      }
    } else {
      PageOfPage(0, last + PAGE - TOP);
      TopPageOf(last);
      TopPageOf(address);
    }
  }

  /** The access runs once around the address space and ends on the page it starts on, which is not the last. */
  predicate OnePageWrap(address: nat, size: nat) {
    TOP <= address + size - 1 && PageOf(address + size - 1 - TOP) == PageOf(address) && PageOf(address) + PAGE < TOP
  }

  lemma TopIsPage()
    ensures IsPage(TOP)
  {
  }

  lemma TopPageOf(a: nat)
    requires TOP <= a + PAGE && a < TOP
    ensures PageOf(a) == TOP - PAGE
  {
  }

  /** An access that fails: one byte at the last address. The loop is not entered, yet its page is not mapped. */
  lemma LastByteIsNotMapped()
    ensures PageOf(TOP - 1) == TOP - PAGE && PageOf(((TOP - 1) % TOP + PAGE) % TOP) == 0
  {
    TopPageEnd(TOP - 1, 1);
  }

  /** No transient page meets the image, the stack or anything else mapped at construction. */
  lemma TransientPagesAreClear(keys: set<int>, core: set<int>, transient: seq<nat>, p: nat)
    requires Consistent(keys, core, transient) && p in transient
    ensures IsPage(p) && PageRange(p) !! core && PageRange(p) <= keys
  {
    hide IsPage, PageRange;
    forall x | x in PageRange(p)
      ensures x !in core && x in keys
    {
      assert x in Union(transient);
    }
  }

  class Mapper {
    const uc: Uc
    const imageStart: nat
    const imageSize: nat
    /** The addresses mapped at construction: image, stack and, if enabled, the heap arena. */
    ghost const core: set<int>
    var transient: seq<nat>
    var limitReached: bool
    var limitHits: nat

    ghost predicate Valid()
      reads this, uc
    {
      Consistent(uc.mem.Keys, core, transient)
      && Range(imageStart, imageSize) <= core && Range(STACK_BASE - STACK_SIZE, STACK_SIZE) <= core
    }

    constructor (uc: Uc, imageStart: nat, imageSize: nat)
      requires WholePages(uc.mem.Keys)
      requires Range(imageStart, imageSize) <= uc.mem.Keys && Range(STACK_BASE - STACK_SIZE, STACK_SIZE) <= uc.mem.Keys
      ensures Valid() && this.uc == uc && core == uc.mem.Keys && transient == []
      ensures this.imageStart == imageStart && this.imageSize == imageSize
    {
      this.uc := uc;
      this.imageStart := imageStart;
      this.imageSize := imageSize;
      core := uc.mem.Keys;
      transient, limitReached, limitHits := [], false, 0;
      new;
      assert Union(transient) == {};
    }

    predicate IsCoreMapped(address: nat)
      reads this
    {
      imageStart <= address < imageStart + imageSize || STACK_BASE - STACK_SIZE <= address < STACK_BASE
    }

    /** uc_mem_map of one page, unless the limit is reached; `available` is whether the engine has memory for it. */
    method MapTransientPage(page: nat, available: bool) returns (ok: bool)
      requires Valid() && IsPage(page)
      modifies this, uc
      ensures Valid()
      ensures ok <==> old(|transient|) < MAX_TRANSIENT && (page in old(uc.mem) || available)
      ensures ok ==> uc.mem.Keys == old(uc.mem.Keys) + PageRange(page)
      ensures !ok ==> uc.mem == old(uc.mem)
      ensures forall x :: x in uc.mem ==> uc.mem[x] == if x in old(uc.mem) then old(uc.mem)[x] else 0
      ensures limitHits == old(limitHits) + if old(|transient|) < MAX_TRANSIENT then 0 else 1
      ensures limitReached == (old(limitReached) || old(|transient|) >= MAX_TRANSIENT)
      ensures transient == if ok && page !in old(uc.mem) then old(transient) + [page] else old(transient)
      ensures |transient| <= MAX_TRANSIENT
    {
      hide IsPage;
      if |transient| >= MAX_TRANSIENT {
        limitReached := true;
        limitHits := limitHits + 1;
        return false;
      }
      PageOverlap(uc.mem.Keys, core, transient, page);
      if page !in uc.mem {
        MapKeepsConsistent(uc.mem.Keys, core, transient, page);
      }
      var err := uc.MemMap(page, PAGE, available);
      if err.MapOverlap? {
        assert uc.mem.Keys == old(uc.mem.Keys) + PageRange(page);
        return true;
      }
      if !err.MapOk? {
        return false;
      }
      transient := transient + [page];
      assert uc.mem.Keys == old(uc.mem.Keys) + PageRange(page);
      return true;
    }

    /** Maps what an access of `size` bytes at `address` needs, in 64-bit arithmetic. */
    method MapFaultRegion(address: nat, size: nat, available: nat -> bool) returns (ok: bool)
      requires Valid() && address < TOP && 0 < size < TOP
      modifies this, uc
      ensures Valid()
      ensures ok && address + size - 1 + PAGE < TOP ==> uc.mem.Keys == old(uc.mem.Keys) + FaultRange(address, size)
      // on the last page of the address space the end wraps to 0: success is reported and nothing is mapped
      ensures address + size - 1 < TOP <= address + size - 1 + PAGE ==> ok && uc.mem.Keys == old(uc.mem.Keys)
      // where the access itself passes 2^64, at most one page is
      ensures TOP <= address + size - 1 && !OnePageWrap(address, size) ==> ok
      ensures ok && TOP <= address + size - 1 ==>
                uc.mem.Keys == old(uc.mem.Keys) + if OnePageWrap(address, size) then PageRange(PageOf(address)) else {}
      ensures forall x :: x in old(uc.mem) ==> x in uc.mem
      ensures forall x :: x in uc.mem ==> uc.mem[x] == if x in old(uc.mem) then old(uc.mem)[x] else 0
      ensures old(transient) <= transient && limitHits <= old(limitHits) + 1
      // it fails only at the limit on pages, or on a page of the access that the engine has no memory for
      ensures limitHits > old(limitHits) ==> !ok && |transient| == MAX_TRANSIENT && limitReached
      ensures !ok && limitHits == old(limitHits) ==>
                exists p :: PageOf(address) <= p <= PageOf(address) + size + PAGE && IsPage(p) && p !in old(uc.mem) && !available(p)
    {
      hide IsPage, PageOf, Consistent, PageRange, Range;
      var start := PageOf(address);
      var last := (address + (size - 1)) % TOP;
      var end := PageOf((last + PAGE) % TOP);
      var page := start;
      NoRange(start);
      if address + size - 1 < TOP <= address + size - 1 + PAGE {
        TopPageEnd(address, size);
      }
      if TOP <= address + size - 1 {
        WrappedFaultEnd(address, size);
        PageIsRange(PageOf(address));
      }
      while page < end
        invariant Valid() && IsPage(page) && start <= page && (if start <= end then page <= end else page == start)
        invariant uc.mem.Keys == old(uc.mem.Keys) + Range(start, page - start)
        invariant forall x :: x in uc.mem ==> uc.mem[x] == if x in old(uc.mem) then old(uc.mem)[x] else 0
        invariant limitHits == old(limitHits) && old(transient) <= transient
        decreases end - page
      {
        NeighbourPages(page);
        PagesAreApart(page, end);
        RangeGrows(start, page);
        PageOverlap(uc.mem.Keys, core, transient, page);
        ghost var before := uc.mem.Keys;
        if IsCoreMapped(page) || page in transient {
          KnownIsMapped(page);
        } else {
          var readable, _ := uc.MemRead(page, 1);
          if readable {
            assert page in uc.mem;
          } else {
            var mapped := MapTransientPage(page, available(page));
            if !mapped {
              return false;
            }
          }
        }
        assert uc.mem.Keys == before + PageRange(page);
        page := page + PAGE;
      }
      if address + size - 1 + PAGE < TOP {
        FaultEnd(address, size);
      }
      return true;
    }

    lemma KnownIsMapped(page: nat)
      requires Valid() && (IsCoreMapped(page) || page in transient)
      ensures page in uc.mem
    {
      hide Consistent;
      if page in transient {
        TransientIsMapped(uc.mem.Keys, core, transient, page);
      } else {
        CoreIsMapped(uc.mem.Keys, core, transient);
        assert Within(page, imageStart, imageSize) || Within(page, STACK_BASE - STACK_SIZE, STACK_SIZE);
      }
    }

    /** Unmaps every transient page: what is left is what was mapped at construction. */
    method ClearTransientMappings()
      requires Valid()
      modifies this, uc
      ensures Valid() && transient == [] && uc.mem.Keys == core
      ensures forall x :: x in core ==> x in old(uc.mem) && uc.mem[x] == old(uc.mem)[x]
    {
      for i := 0 to |transient|
        invariant transient == old(transient)
        invariant uc.mem.Keys == core + Union(transient[i..])
        invariant forall x :: x in uc.mem ==> x in old(uc.mem) && uc.mem[x] == old(uc.mem)[x]
      {
        UnionShrinks(uc.mem.Keys, core, transient, i);
        uc.MemUnmap(transient[i], PAGE);
        assert uc.mem.Keys == core + Union(transient[i + 1..]);
      }
      assert Union(transient[|transient|..]) == {};
      transient := [];
      assert Union(transient) == {};
    }
  }

  lemma PageIsRange(p: nat)
    ensures PageRange(p) == Range(p, PAGE)
  {
  }

  lemma NoRange(start: nat)
    ensures Range(start, 0) == {}
  {
  }

  lemma CoreIsMapped(keys: set<int>, core: set<int>, transient: seq<nat>)
    requires Consistent(keys, core, transient)
    ensures core <= keys
  {
  }

  lemma UnionShrinks(keys: set<int>, core: set<int>, transient: seq<nat>, i: nat)
    requires Consistent(core + Union(transient), core, transient) && i < |transient|
    requires keys == core + Union(transient[i..])
    ensures keys - PageRange(transient[i]) == core + Union(transient[i + 1..])
  {
    hide PageRange, IsPage;
    var p := transient[i];
    forall x
      ensures x in keys && x !in PageRange(p) <==> x in core || x in Union(transient[i + 1..])
    {
      if x in PageRange(p) {
        assert x in Union(transient);
      }
      if x in Union(transient[i + 1..]) {
        var q :| q in transient[i + 1..] && x in PageRange(q);
        var k :| i + 1 <= k < |transient| && transient[k] == q;
        assert q in transient[i..];
        if x in PageRange(p) {
          PageRangesAreApart(p, q, x);
        }
      }
      if x in Union(transient[i..]) && x !in PageRange(p) {
        var q :| q in transient[i..] && x in PageRange(q);
        assert q in transient[i + 1..];
      }
    }
  }
}
