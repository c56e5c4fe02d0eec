/** The fake_heap class, in the form of fake_heap.hpp, refining HeapSpec. */
module FakeHeap {
  import opened Engine
  import HeapSpec

  /** alloc_sizes_ after handing out these blocks. */
  function Sizes(blocks: seq<HeapSpec.Block>): map<nat, nat> {
    if blocks == [] then map[]
    else Sizes(blocks[..|blocks| - 1])[blocks[|blocks| - 1].ptr := blocks[|blocks| - 1].size]
  }

  lemma {:induction false} SizesLookup(blocks: seq<HeapSpec.Block>, p: nat)
    ensures HeapSpec.SizeOf(blocks, p) == if p in Sizes(blocks) then Sizes(blocks)[p] else 0
    decreases |blocks|
  {
    if blocks != [] {
      SizesLookup(blocks[..|blocks| - 1], p);
    }
  }

  lemma SizesGrow(blocks: seq<HeapSpec.Block>, b: HeapSpec.Block)
    ensures Sizes(blocks + [b]) == Sizes(blocks)[b.ptr := b.size]
  {
    assert (blocks + [b])[..|blocks|] == blocks;
  }

  class Heap {
    const uc: Uc
    var arenaBase: nat
    var cursor: nat
    var allocSizes: map<nat, nat>
    var initialized: bool
    ghost var blocks: seq<HeapSpec.Block>

    ghost function Model(): HeapSpec.Arena
      reads this, uc
    {
      HeapSpec.Arena(arenaBase, cursor, blocks, uc.mem)
    }

    ghost predicate Ready()
      reads this, uc
    {
      if initialized then HeapSpec.Valid(Model()) && allocSizes == Sizes(blocks)
      else allocSizes == map[] && blocks == []
    }

    constructor (uc: Uc)
      ensures this.uc == uc && !initialized && Ready()
    {
      this.uc := uc;
      arenaBase, cursor, allocSizes, initialized, blocks := 0, 0, map[], false, [];
    }

    /** Maps the arena, once; a fresh arena is sound and zero. */
    method Init(base: nat, available: bool) returns (ok: bool)
      requires 0 < base && base % 16 == 0 && base + HeapSpec.ARENA_SIZE <= HeapSpec.MAX64
      requires Ready()
      modifies this, uc
      ensures Ready() && ok == initialized
      ensures old(initialized) ==> ok && unchanged(this) && unchanged(uc)
      ensures !old(initialized) ==>
                (ok <==> available && forall x :: base <= x < base + HeapSpec.ARENA_SIZE ==> x !in old(uc.mem))
      ensures !old(initialized) && ok ==> HeapSpec.Clean(Model()) && arenaBase == base && blocks == []
      ensures forall x :: !(base <= x < base + HeapSpec.ARENA_SIZE) ==> (x in uc.mem <==> x in old(uc.mem))
      ensures forall x :: x in old(uc.mem) ==> x in uc.mem && uc.mem[x] == old(uc.mem)[x]
      ensures !ok ==> uc.mem == old(uc.mem)
    {
      if initialized {
        return true;
      }
      arenaBase := base;
      cursor := base;
      var err := uc.MemMap(base, HeapSpec.ARENA_SIZE, available);
      if !err.MapOk? {
        return false;
      }
      initialized := true;
      return true;
    }

    /** The sums are those of 64-bit words; where they do not wrap the result is that of HeapSpec.Alloc. */
    method Alloc(size: nat) returns (ptr: nat)
      requires Ready() && size <= HeapSpec.MAX64
      modifies this
      ensures initialized == old(initialized) && arenaBase == old(arenaBase)
      ensures old(initialized) ==> (ptr, cursor) == HeapSpec.AllocCode(old(Model()), size)
      ensures old(initialized) ==>
                allocSizes == if ptr == 0 then old(allocSizes) else old(allocSizes)[ptr := HeapSpec.RoundUp16(size)]
      ensures old(initialized) && HeapSpec.NonWrapping(old(Model()), size) ==>
                Ready() && (Model(), ptr) == HeapSpec.Alloc(old(Model()), size)
      ensures !old(initialized) ==> ptr == 0 && unchanged(this)
    {
      hide HeapSpec.RoundUp16, HeapSpec.Valid, HeapSpec.Tiles, HeapSpec.NonWrapping, Sizes;
      if !initialized || size == 0 {
        if initialized && HeapSpec.NonWrapping(Model(), size) {
          HeapSpec.AllocKeeps(Model(), size);
        }
        return 0;
      }
      HeapSpec.CursorIsPositive(Model());
      var rounded := HeapSpec.RoundUp16(size);
      var next := (cursor + rounded) % 0x1_0000_0000_0000_0000;
      if HeapSpec.NonWrapping(Model(), size) {
        HeapSpec.AllocKeeps(Model(), size);
        HeapSpec.AllocCodeAgrees(Model(), size);
      }
      if next > arenaBase + HeapSpec.ARENA_SIZE {
        return 0;
      }
      ptr := cursor;
      SizesGrow(blocks, HeapSpec.Block(ptr, rounded));
      cursor := next;
      allocSizes := allocSizes[ptr := rounded];
      blocks := blocks + [HeapSpec.Block(ptr, rounded)];
    }

    method Calloc(count: nat, elem: nat) returns (ptr: nat)
      requires Ready() && (initialized ==> HeapSpec.NonWrapping(Model(), HeapSpec.CallocTotal(count, elem)))
      modifies this, uc
      ensures Ready() && initialized == old(initialized)
      ensures old(initialized) ==> (Model(), ptr) == HeapSpec.Calloc(old(Model()), HeapSpec.CallocTotal(count, elem))
      ensures !old(initialized) ==> ptr == 0 && unchanged(this) && unchanged(uc)
    {
      hide HeapSpec.Alloc, HeapSpec.RoundUp16, HeapSpec.CallocTotal;
      var total := HeapSpec.CallocTotal(count, elem);
      ptr := Alloc(total);
      if ptr != 0 {
        var _ := uc.MemWrite(ptr, ZeroBytes(total));
      }
    }

    method Realloc(oldPtr: nat, newSize: nat) returns (newPtr: nat)
      requires Ready() && newSize <= HeapSpec.MAX64 && (initialized ==> HeapSpec.NonWrapping(Model(), newSize))
      modifies this, uc
      ensures Ready() && initialized == old(initialized)
      ensures old(initialized) ==> (Model(), newPtr) == HeapSpec.Realloc(old(Model()), oldPtr, newSize)
      ensures !old(initialized) ==> newPtr == 0 && unchanged(this) && unchanged(uc)
    {
      hide HeapSpec.Alloc, HeapSpec.RoundUp16, HeapSpec.SizeOf;
      if oldPtr == 0 {
        newPtr := Alloc(newSize);
        return;
      }
      if newSize == 0 {
        return 0;
      }
      if initialized {
        SizesLookup(blocks, oldPtr);
      }
      var oldSize := 0;
      if oldPtr in allocSizes {
        oldSize := allocSizes[oldPtr];
      }
      newPtr := Alloc(newSize);
      if newPtr == 0 {
        return 0;
      }
      if oldSize > 0 {
        var copySize := if oldSize < newSize then oldSize else newSize;
        var ok, buf := uc.MemRead(oldPtr, copySize);
        if ok {
          var _ := uc.MemWrite(newPtr, buf);
        }
      }
    }

    method Free(ptr: nat)
      ensures unchanged(this) && unchanged(uc)
    {
    }

    method Reset()
      requires Ready()
      modifies this, uc
      ensures Ready() && initialized == old(initialized)
      ensures old(initialized) ==> Model() == HeapSpec.Reset(old(Model()))
      ensures !old(initialized) ==> unchanged(this) && unchanged(uc)
    {
      if !initialized {
        return;
      }
      HeapSpec.TilesFacts(blocks, arenaBase, cursor);
      var used := cursor - arenaBase;
      if used > 0 {
        var _ := uc.MemWrite(arenaBase, ZeroBytes(used));
      }
      cursor := arenaBase;
      allocSizes := map[];
      blocks := [];
    }

    /** The free range for the arena, aligned to 64 KiB. */
    static method ComputeBase(imageEnd: nat, stackStart: nat, stackEnd: nat) returns (candidate: nat)
      ensures candidate == HeapSpec.ComputeBase(imageEnd, stackStart, stackEnd)
    {
      candidate := HeapSpec.AlignUp64K(imageEnd);
      if candidate + HeapSpec.ARENA_SIZE > stackStart && candidate < stackEnd {
        candidate := HeapSpec.AlignUp64K(stackEnd);
      }
    }
  }
}
