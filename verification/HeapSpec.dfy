/** The fake heap arena as a value, and what every sequence of calls keeps (fake_heap.hpp). */
module HeapSpec {
  import opened Engine

  const ARENA_SIZE: nat := 0x100_0000
  const MAX64: nat := 0xFFFF_FFFF_FFFF_FFFF

  /** (x + 15) & ~15 in 64-bit arithmetic. */
  function RoundUp16(x: nat): nat {
    (x + 15) % 0x1_0000_0000_0000_0000 / 16 * 16
  }

  // ----- compute_base

  /** (x + 0xffff) & ~0xffff for x that does not overflow. */
  function AlignUp64K(x: nat): (r: nat)
    ensures r % 0x10000 == 0 && x <= r < x + 0x10000
  {
    (x + 0xffff) / 0x10000 * 0x10000
  }

  function ComputeBase(imageEnd: nat, stackStart: nat, stackEnd: nat): nat {
    var candidate := AlignUp64K(imageEnd);
    if candidate + ARENA_SIZE > stackStart && candidate < stackEnd then AlignUp64K(stackEnd) else candidate
  }

  /**
   * The arena is aligned, lies above the image and does not meet the stack. It is right above the image, or, only if
   * it would meet the stack there, right above the stack.
   */
  lemma BaseIsClear(imageEnd: nat, stackStart: nat, stackEnd: nat)
    ensures var base := ComputeBase(imageEnd, stackStart, stackEnd);
            && base % 0x10000 == 0 && imageEnd <= base
            && (base + ARENA_SIZE <= stackStart || stackEnd <= base)
            && (base < imageEnd + 0x10000
                || (base < stackEnd + 0x10000
                    && exists c :: c % 0x10000 == 0 && imageEnd <= c < imageEnd + 0x10000
                                   && c + 0x100_0000 > stackStart && c < stackEnd))
  {
    var c := AlignUp64K(imageEnd);
    assert c % 0x10000 == 0;
  }

  // ----- The arena

  datatype Block = Block(ptr: nat, size: nat)

  /** The arena and the guest memory it lives in; blocks in the order they were handed out since the last reset. */
  datatype Arena = Arena(base: nat, cursor: nat, blocks: seq<Block>, mem: Memory)

  function Limit(s: Arena): nat {
    s.base + ARENA_SIZE
  }

  /** The blocks lie end to end from base to end, each a positive multiple of 16 bytes. */
  ghost predicate Tiles(blocks: seq<Block>, base: nat, end: nat)
    decreases |blocks|
  {
    if blocks == [] then base == end
    else
      var b := blocks[|blocks| - 1];
      b.size > 0 && b.size % 16 == 0 && b.ptr + b.size == end && Tiles(blocks[..|blocks| - 1], base, b.ptr)
  }

  ghost predicate Valid(s: Arena) {
    && 0 < s.base && s.base % 16 == 0 && Limit(s) <= MAX64
    && Tiles(s.blocks, s.base, s.cursor) && s.cursor <= Limit(s)
    && Mapped(s.mem, s.base, ARENA_SIZE)
  }

  /** The 64-bit sums of alloc do not wrap. */
  predicate NonWrapping(s: Arena, size: nat) {
    size + 15 <= MAX64 && s.cursor + RoundUp16(size) <= MAX64
  }

  /** fake_heap::alloc where the sums do not wrap: the new arena and the pointer, 0 for none. */
  function Alloc(s: Arena, size: nat): (Arena, nat) {
    var rounded := RoundUp16(size);
    if size == 0 || s.cursor + rounded > Limit(s) then (s, 0)
    else (s.(cursor := s.cursor + rounded, blocks := s.blocks + [Block(s.cursor, rounded)]), s.cursor)
  }

  /** alloc_sizes_: the size recorded for a pointer, 0 if there is none. */
  function SizeOf(blocks: seq<Block>, ptr: nat): nat {
    if blocks == [] then 0
    else if blocks[|blocks| - 1].ptr == ptr then blocks[|blocks| - 1].size
    else SizeOf(blocks[..|blocks| - 1], ptr)
  }

  function Calloc(s: Arena, total: nat): (Arena, nat) {
    var (t, ptr) := Alloc(s, total);
    if ptr == 0 then (t, 0) else (t.(mem := Store(t.mem, ptr, ZeroBytes(total))), ptr)
  }

  function Min(a: nat, b: nat): nat {
    if a < b then a else b
  }

  function Realloc(s: Arena, old_: nat, size: nat): (Arena, nat) {
    if old_ == 0 then Alloc(s, size)
    else if size == 0 then (s, 0)
    else
      var oldSize := SizeOf(s.blocks, old_);
      var (t, ptr) := Alloc(s, size);
      if ptr == 0 then (t, 0)
      else
        var n := Min(oldSize, size);
        if oldSize > 0 && Mapped(t.mem, old_, n) then (t.(mem := Store(t.mem, ptr, Bytes(t.mem, old_, n))), ptr)
        else (t, ptr)
  }

  function Reset(s: Arena): Arena {
    Arena(s.base, s.base, [], if s.cursor > s.base then Store(s.mem, s.base, ZeroBytes(s.cursor - s.base)) else s.mem)
  }

  // ----- Tiling

  function SumOfSizes(blocks: seq<Block>): nat {
    if blocks == [] then 0 else SumOfSizes(blocks[..|blocks| - 1]) + blocks[|blocks| - 1].size
  }

  /** Blocks that tile a range are aligned, inside it, disjoint, and their sizes sum to its length. */
  lemma {:induction false} TilesFacts(blocks: seq<Block>, base: nat, end: nat)
    requires Tiles(blocks, base, end) && base % 16 == 0
    ensures base <= end && end % 16 == 0 && base + SumOfSizes(blocks) == end
    ensures forall i :: 0 <= i < |blocks| ==>
              blocks[i].ptr % 16 == 0 && base <= blocks[i].ptr && blocks[i].ptr + blocks[i].size <= end && blocks[i].size > 0
    ensures forall i, j :: 0 <= i < j < |blocks| ==> blocks[i].ptr + blocks[i].size <= blocks[j].ptr
    decreases |blocks|
  {
    if blocks != [] {
      var init, b := blocks[..|blocks| - 1], blocks[|blocks| - 1];
      TilesFacts(init, base, b.ptr);
      assert forall i :: 0 <= i < |init| ==> blocks[i] == init[i];
    }
  }

  lemma RoundUpFacts(size: nat)
    requires size + 15 <= MAX64
    ensures RoundUp16(size) % 16 == 0 && size <= RoundUp16(size) < size + 16
    ensures size > 0 ==> RoundUp16(size) > 0
  {
  }

  lemma AllocKeeps(s: Arena, size: nat)
    requires Valid(s) && NonWrapping(s, size)
    ensures Valid(Alloc(s, size).0) && Alloc(s, size).0.mem == s.mem
    ensures var (t, ptr) := Alloc(s, size);
            if ptr == 0 then t == s
            else t.blocks == s.blocks + [Block(ptr, RoundUp16(size))] && ptr == s.cursor
                 && size <= RoundUp16(size) && ptr + RoundUp16(size) == t.cursor
    ensures Alloc(s, size).1 == 0 <==> size == 0 || s.cursor + RoundUp16(size) > Limit(s)
  {
    hide RoundUp16;
    RoundUpFacts(size);
    TilesFacts(s.blocks, s.base, s.cursor);
    var rounded := RoundUp16(size);
    assert (s.blocks + [Block(s.cursor, rounded)])[..|s.blocks|] == s.blocks;
  }

  // ----- Exactly when the 64-bit sums do what they are meant to

  /** fake_heap::alloc with its 64-bit sums written out: the pointer and the new cursor. */
  function AllocCode(s: Arena, size: nat): (nat, nat) {
    var rounded := RoundUp16(size);
    if size == 0 || (s.cursor + rounded) % 0x1_0000_0000_0000_0000 > Limit(s) then (0, s.cursor)
    else (s.cursor, (s.cursor + rounded) % 0x1_0000_0000_0000_0000)
  }

  /** Where the sums do not wrap the code is Alloc ... */
  lemma AllocCodeAgrees(s: Arena, size: nat)
    requires Valid(s) && NonWrapping(s, size)
    ensures AllocCode(s, size) == (Alloc(s, size).1, Alloc(s, size).0.cursor)
  {
    hide RoundUp16;
  }

  /** ... and what it returns is null or a range inside the arena exactly where they do not. */
  lemma AllocStaysInsideIff(s: Arena, size: nat)
    requires Valid(s) && 0 < size <= MAX64
    ensures var ptr := AllocCode(s, size).0;
            ptr == 0 || (s.base <= ptr && ptr + size <= Limit(s)) <==> NonWrapping(s, size)
  {
    hide RoundUp16, Tiles;
    TilesFacts(s.blocks, s.base, s.cursor);
    if size + 15 <= MAX64 {
      RoundUpFacts(size);
    } else {
      RoundUpWraps(size);
    }
    WrappedSum(s.cursor, RoundUp16(size));
  }

  lemma CursorIsPositive(s: Arena)
    requires Valid(s)
    ensures s.cursor > 0
  {
    TilesFacts(s.blocks, s.base, s.cursor);
  }

  /** A size that fails: 2^64 - 1 rounds to 0, so the cursor is handed out and not moved. */
  lemma AllocOfMaxWraps(s: Arena)
    requires Valid(s)
    ensures AllocCode(s, MAX64) == (s.cursor, s.cursor) && s.cursor + MAX64 > Limit(s)
  {
    hide RoundUp16, Tiles;
    CursorIsPositive(s);
    RoundUpWraps(MAX64);
    TilesFacts(s.blocks, s.base, s.cursor);
  }

  lemma RoundUpWraps(size: nat)
    requires size <= MAX64 < size + 15
    ensures RoundUp16(size) == 0
  {
  }

  lemma WrappedSum(a: nat, b: nat)
    requires a <= MAX64 && b <= MAX64
    ensures (a + b) % 0x1_0000_0000_0000_0000 == if a + b <= MAX64 then a + b else a + b - 0x1_0000_0000_0000_0000
  {
  }

  /** count * size in 64-bit arithmetic. */
  function CallocTotal(count: nat, elem: nat): (total: nat)
    ensures total <= MAX64
  {
    count * elem % 0x1_0000_0000_0000_0000
  }

  /** A block that calloc hands out holds all the elements exactly when the product does not wrap. */
  lemma CallocHoldsIff(s: Arena, count: nat, elem: nat)
    requires Valid(s) && NonWrapping(s, CallocTotal(count, elem)) && Calloc(s, CallocTotal(count, elem)).1 != 0
    ensures count * elem <= RoundUp16(CallocTotal(count, elem)) <==> count * elem <= MAX64
  {
    var n := count * elem;
    RoundUpFacts(CallocTotal(count, elem));
    TilesFacts(s.blocks, s.base, s.cursor);
  }

  /** Operands that fail: the product of 2^60 + 1 and 16 is 2^64 + 16, and 16 bytes are handed out. */
  lemma CallocProductWraps()
    ensures CallocTotal(0x1000_0000_0000_0001, 16) == 16 < 0x1000_0000_0000_0001 * 16
  {
  }

  // ----- When calloc and realloc succeed

  /** calloc hands out the block that alloc would, and none exactly when alloc has none. */
  lemma CallocSucceedsIff(s: Arena, total: nat)
    requires Valid(s) && NonWrapping(s, total)
    ensures Calloc(s, total).1 == Alloc(s, total).1
    ensures Calloc(s, total).1 != 0 <==> total > 0 && s.cursor + RoundUp16(total) <= s.base + 0x100_0000
    ensures Calloc(s, total).0.blocks == Alloc(s, total).0.blocks && Calloc(s, total).0.cursor == Alloc(s, total).0.cursor
    ensures Calloc(s, total).1 == 0 ==> Calloc(s, total).0 == s
  {
    hide RoundUp16, Store;
    AllocKeeps(s, total);
  }

  /** realloc of null is alloc; realloc to nothing changes nothing; any other realloc has alloc's new block. */
  lemma ReallocSucceedsIff(s: Arena, p: nat, size: nat)
    requires Valid(s) && NonWrapping(s, size)
    ensures p == 0 ==> Realloc(s, p, size) == Alloc(s, size)
    ensures Realloc(s, p, size).1 == Alloc(s, size).1
    ensures Realloc(s, p, size).1 != 0 <==> size > 0 && s.cursor + RoundUp16(size) <= s.base + 0x100_0000
    ensures Realloc(s, p, size).1 == 0 ==> Realloc(s, p, size).0 == s
    ensures Realloc(s, p, size).0.blocks == Alloc(s, size).0.blocks
    ensures Realloc(s, p, size).0.cursor == Alloc(s, size).0.cursor
  {
    hide RoundUp16, Store, SizeOf;
    AllocKeeps(s, size);
  }

  /** A pointer that no block starts at has no contents to copy. */
  lemma {:induction false} UnknownSize(blocks: seq<Block>, p: nat)
    requires forall b :: b in blocks ==> b.ptr != p
    ensures SizeOf(blocks, p) == 0
    decreases |blocks|
  {
    if blocks != [] {
      UnknownSize(blocks[..|blocks| - 1], p);
    }
  }

  lemma ReallocOfUnknown(s: Arena, p: nat, size: nat)
    requires Valid(s) && NonWrapping(s, size) && forall b :: b in s.blocks ==> b.ptr != p
    ensures Realloc(s, p, size).0.mem == s.mem
  {
    hide RoundUp16, Store, SizeOf;
    AllocKeeps(s, size);
    UnknownSize(s.blocks, p);
  }

  // ----- Contents

  /** The arena is sound and zero from the cursor on. */
  ghost predicate Clean(s: Arena) {
    Valid(s) && forall x :: s.cursor <= x < Limit(s) ==> x in s.mem && s.mem[x] == 0
  }

  lemma StoreFacts(m: Memory, a: nat, data: seq<byte>)
    ensures Store(m, a, data).Keys == m.Keys
    ensures Mapped(m, a, |data|) ==> Bytes(Store(m, a, data), a, |data|) == data
    ensures forall x :: x in m && a <= x < a + |data| && Mapped(m, a, |data|) ==> Store(m, a, data)[x] == data[x - a]
    ensures forall x :: x in m && !(a <= x < a + |data|) ==> Store(m, a, data)[x] == m[x]
  {
  }

  /** A write that stays below the cursor keeps the arena clean. */
  lemma StoreKeepsClean(s: Arena, a: nat, data: seq<byte>)
    requires Clean(s) && (a + |data| <= s.cursor || Limit(s) <= a)
    ensures Clean(s.(mem := Store(s.mem, a, data)))
  {
    StoreFacts(s.mem, a, data);
    hide Tiles, Store;
  }

  lemma AllocKeepsClean(s: Arena, size: nat)
    requires Clean(s) && NonWrapping(s, size)
    ensures Clean(Alloc(s, size).0)
  {
    hide Tiles, RoundUp16;
    AllocKeeps(s, size);
  }

  lemma CallocKeepsClean(s: Arena, total: nat)
    requires Clean(s) && NonWrapping(s, total)
    ensures Clean(Calloc(s, total).0)
    ensures s.blocks <= Calloc(s, total).0.blocks && Calloc(s, total).0.base == s.base
  {
    hide Tiles, RoundUp16, Store;
    AllocKeeps(s, total);
    AllocKeepsClean(s, total);
    var (t, ptr) := Alloc(s, total);
    if ptr != 0 {
      StoreKeepsClean(t, ptr, ZeroBytes(total));
    }
  }

  lemma ReallocKeepsClean(s: Arena, p: nat, size: nat)
    requires Clean(s) && NonWrapping(s, size)
    ensures Clean(Realloc(s, p, size).0)
    ensures s.blocks <= Realloc(s, p, size).0.blocks && Realloc(s, p, size).0.base == s.base
  {
    hide Tiles, RoundUp16, Store, SizeOf;
    AllocKeeps(s, size);
    AllocKeepsClean(s, size);
    var (t, ptr) := Alloc(s, size);
    var n := Min(SizeOf(s.blocks, p), size);
    if ptr != 0 && Mapped(t.mem, p, n) {
      StoreKeepsClean(t, ptr, Bytes(t.mem, p, n));
    }
  }

  /** The block calloc returns is zero, and no byte outside it changes. */
  lemma CallocZeroes(s: Arena, total: nat)
    requires Valid(s) && NonWrapping(s, total) && Calloc(s, total).1 != 0
    ensures var (t, ptr) := Calloc(s, total);
            && t.mem.Keys == s.mem.Keys && Mapped(s.mem, ptr, total)
            && Bytes(t.mem, ptr, total) == ZeroBytes(total)
            && (forall x :: x in s.mem && !(ptr <= x < ptr + total) ==> t.mem[x] == s.mem[x])
  {
    hide RoundUp16, Store;
    AllocKeeps(s, total);
    TilesFacts(s.blocks, s.base, s.cursor);
    StoreFacts(s.mem, s.cursor, ZeroBytes(total));
  }

  lemma {:induction false} LiveSize(blocks: seq<Block>, base: nat, end: nat, b: Block)
    requires Tiles(blocks, base, end) && base % 16 == 0 && b in blocks
    ensures SizeOf(blocks, b.ptr) == b.size && base <= b.ptr && b.ptr + b.size <= end
    decreases |blocks|
  {
    TilesFacts(blocks, base, end);
    var init, last := blocks[..|blocks| - 1], blocks[|blocks| - 1];
    if b != last {
      assert blocks == init + [last];
      LiveSize(init, base, last.ptr, b);
    }
  }

  /**
   * realloc of a live block that succeeds copies its first min(old, new) bytes to the new block and changes no
   * other byte, so every earlier block, the old one included, is as it was.
   */
  lemma ReallocPreserves(s: Arena, b: Block, size: nat)
    requires Valid(s) && NonWrapping(s, size) && b in s.blocks && Realloc(s, b.ptr, size).1 != 0
    ensures var (t, ptr) := Realloc(s, b.ptr, size);
            && t.mem.Keys == s.mem.Keys && t.blocks == s.blocks + [Block(ptr, RoundUp16(size))]
            && Mapped(s.mem, b.ptr, b.size) && Mapped(s.mem, ptr, size)
            && Bytes(t.mem, ptr, Min(b.size, size)) == Bytes(s.mem, b.ptr, Min(b.size, size))
            && (forall x :: x in s.mem && !(ptr <= x < ptr + Min(b.size, size)) ==> t.mem[x] == s.mem[x])
            && (forall c :: c in s.blocks ==> c.ptr + c.size <= ptr)
  {
    hide RoundUp16, Store;
    AllocKeeps(s, size);
    LiveSize(s.blocks, s.base, s.cursor, b);
    TilesFacts(s.blocks, s.base, s.cursor);
    hide Tiles, SizeOf;
    var n := Min(b.size, size);
    assert Mapped(s.mem, b.ptr, n);
    StoreFacts(s.mem, s.cursor, Bytes(s.mem, b.ptr, n));
  }

  /** After a reset of a clean arena every byte of it is zero. */
  lemma ResetZeroes(s: Arena)
    requires Clean(s)
    ensures Clean(Reset(s)) && Reset(s).blocks == [] && Reset(s).cursor == s.base
    ensures forall x :: s.base <= x < Limit(s) ==> Reset(s).mem[x] == 0
    ensures forall x :: x in s.mem && !(s.base <= x < s.cursor) ==> x in Reset(s).mem && Reset(s).mem[x] == s.mem[x]
  {
    TilesFacts(s.blocks, s.base, s.cursor);
    assert Tiles([], s.base, s.base);
    hide Store, Tiles, ZeroBytes, SumOfSizes;
    if s.cursor > s.base {
      StoreFacts(s.mem, s.base, ZeroBytes(s.cursor - s.base));
    }
  }

  // ----- Every sequence of calls and guest writes

  datatype Op =
    | MallocOp(size: nat)
    | CallocOp(count: nat, elem: nat)
    | ReallocOp(ptr: nat, size: nat)
    | FreeOp(ptr: nat)
    | GuestWriteOp(address: nat, data: seq<byte>)

  function Step(s: Arena, op: Op): Arena {
    match op
    case MallocOp(size) => Alloc(s, size).0
    case CallocOp(count, elem) => Calloc(s, CallocTotal(count, elem)).0
    case ReallocOp(ptr, size) => Realloc(s, ptr, size).0
    case FreeOp(ptr) => s
    case GuestWriteOp(address, data) => s.(mem := Store(s.mem, address, data))
  }

  /** Sizes do not wrap, and a guest write to the arena stays inside one block handed out. */
  predicate Allowed(s: Arena, op: Op) {
    match op
    case MallocOp(size) => NonWrapping(s, size)
    case CallocOp(count, elem) => NonWrapping(s, CallocTotal(count, elem))
    case ReallocOp(ptr, size) => NonWrapping(s, size)
    case FreeOp(ptr) => true
    case GuestWriteOp(address, data) =>
      address + |data| <= s.base || Limit(s) <= address
      || exists b :: b in s.blocks && b.ptr <= address && address + |data| <= b.ptr + b.size
  }

  function Apply(s: Arena, ops: seq<Op>): Arena {
    if ops == [] then s else Step(Apply(s, ops[..|ops| - 1]), ops[|ops| - 1])
  }

  ghost predicate AllAllowed(s: Arena, ops: seq<Op>) {
    forall k :: 0 <= k < |ops| ==> Allowed(Apply(s, ops[..k]), ops[k])
  }

  lemma StepKeepsClean(s: Arena, op: Op)
    requires Clean(s) && Allowed(s, op)
    ensures Clean(Step(s, op)) && s.blocks <= Step(s, op).blocks && Step(s, op).base == s.base
  {
    hide Tiles, RoundUp16, Store, Alloc, Calloc, Realloc, Clean;
    match op
    case MallocOp(size) =>
      AllocGrows(s, size);
      AllocKeepsClean(s, size);
    case CallocOp(count, elem) =>
      CallocKeepsClean(s, CallocTotal(count, elem));
    case ReallocOp(ptr, size) =>
      ReallocKeepsClean(s, ptr, size);
    case FreeOp(ptr) =>
    case GuestWriteOp(address, data) =>
      BlocksBelowCursor(s);
      StoreKeepsClean(s, address, data);
  }

  lemma AllocGrows(s: Arena, size: nat)
    ensures s.blocks <= Alloc(s, size).0.blocks && Alloc(s, size).0.base == s.base
  {
    hide RoundUp16;
  }

  lemma BlocksBelowCursor(s: Arena)
    requires Clean(s)
    ensures s.base <= s.cursor && forall b :: b in s.blocks ==> b.ptr + b.size <= s.cursor
  {
    TilesFacts(s.blocks, s.base, s.cursor);
  }

  lemma {:induction false} RunStaysClean(s: Arena, ops: seq<Op>)
    requires Clean(s) && AllAllowed(s, ops)
    ensures Clean(Apply(s, ops)) && s.blocks <= Apply(s, ops).blocks && Apply(s, ops).base == s.base
    decreases |ops|
  {
    hide Clean, Step, Allowed;
    if ops != [] {
      var init := ops[..|ops| - 1];
      assert forall k :: 0 <= k < |init| ==> init[..k] == ops[..k];
      RunStaysClean(s, init);
      StepKeepsClean(Apply(s, init), ops[|ops| - 1]);
    }
  }

  /**
   * After any sequence of calls and guest writes from a clean arena, the blocks handed out are aligned, inside the
   * arena and pairwise disjoint, their recorded sizes sum to cursor - base, and a reset leaves the arena zero.
   */
  lemma HeapIsSafe(s: Arena, ops: seq<Op>)
    requires Clean(s) && AllAllowed(s, ops)
    ensures var t := Apply(s, ops);
            && (forall b :: b in t.blocks ==> b.ptr % 16 == 0 && s.base <= b.ptr && b.ptr + b.size <= Limit(s))
            && (forall i, j :: 0 <= i < j < |t.blocks| ==> t.blocks[i].ptr + t.blocks[i].size <= t.blocks[j].ptr)
            && s.base + SumOfSizes(t.blocks) == t.cursor
            && forall x :: s.base <= x < Limit(s) ==> x in Reset(t).mem && Reset(t).mem[x] == 0
  {
    RunStaysClean(s, ops);
    hide Apply, AllAllowed;
    var t := Apply(s, ops);
    TilesFacts(t.blocks, t.base, t.cursor);
    ResetZeroes(t);
  }
}
