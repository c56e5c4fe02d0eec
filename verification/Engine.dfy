/** The part of the Unicorn engine the code relies on: guest memory, byte by byte. */
module Engine {
  type byte = x: int | 0 <= x < 256

  /** The mapped addresses and their contents. */
  type Memory = map<int, byte>

  const U64: int := 0x1_0000_0000_0000_0000

  predicate Mapped(m: Memory, a: int, n: nat) {
    forall i :: a <= i < a + n ==> i in m
  }

  function Bytes(m: Memory, a: int, n: nat): (s: seq<byte>)
    requires Mapped(m, a, n)
    ensures |s| == n && forall i :: 0 <= i < n ==> s[i] == m[a + i]
  {
    seq(n, i requires 0 <= i < n => m[a + i])
  }

  function Update(m: Memory, a: int, data: seq<byte>): (r: Memory)
    requires Mapped(m, a, |data|)
    ensures r.Keys == m.Keys
    ensures forall i :: 0 <= i < |data| ==> r[a + i] == data[i]
    ensures forall x :: x in m && !(a <= x < a + |data|) ==> r[x] == m[x]
  {
    map x | x in m :: if a <= x < a + |data| then data[x - a] else m[x]
  }

  /** uc_mem_write with its result ignored: a write that the engine refuses changes nothing. */
  function Store(m: Memory, a: int, data: seq<byte>): (r: Memory)
    ensures r.Keys == m.Keys
  {
    if Mapped(m, a, |data|) then Update(m, a, data) else m
  }

  function ZeroBytes(n: nat): (s: seq<byte>)
    ensures |s| == n && forall k :: 0 <= k < n ==> s[k] == 0
  {
    seq(n, _ => 0)
  }

  datatype MapError = MapOk | MapOverlap | MapOther

  class Uc {
    var mem: Memory

    constructor ()
      ensures mem == map[]
    {
      mem := map[];
    }

    /** uc_mem_read: all of the range or nothing. */
    method MemRead(a: int, n: nat) returns (ok: bool, data: seq<byte>)
      ensures ok <==> Mapped(mem, a, n)
      ensures ok ==> data == Bytes(mem, a, n)
    {
      ok := forall i :: a <= i < a + n ==> i in mem;
      data := if ok then Bytes(mem, a, n) else [];
    }

    /** uc_mem_write: all of the range or nothing. */
    method MemWrite(a: int, data: seq<byte>) returns (ok: bool)
      modifies this
      ensures ok <==> Mapped(old(mem), a, |data|)
      ensures mem == if ok then Update(old(mem), a, data) else old(mem)
    {
      ok := forall i :: a <= i < a + |data| ==> i in mem;
      if ok {
        mem := Update(mem, a, data);
      }
    }

    /** uc_mem_map: fresh memory is zero; an overlap is refused, and other failures are the engine's choice. */
    method MemMap(a: int, n: nat, available: bool) returns (err: MapError)
      modifies this
      ensures err.MapOverlap? <==> exists x :: a <= x < a + n && x in old(mem)
      ensures err.MapOk? ==> available
      ensures !err.MapOverlap? && available ==> err.MapOk?
      ensures mem == if err.MapOk? then old(mem) + Zeros(a, n) else old(mem)
    {
      if exists x :: a <= x < a + n && x in mem {
        return MapOverlap;
      }
      if !available {
        return MapOther;
      }
      mem := mem + Zeros(a, n);
      return MapOk;
    }

    /** uc_mem_unmap of a mapped range. */
    method MemUnmap(a: int, n: nat)
      modifies this
      ensures mem == Without(old(mem), a, n)
    {
      mem := Without(mem, a, n);
    }
  }

  predicate Within(x: int, a: int, n: nat) {
    a <= x < a + n
  }

  function Range(a: int, n: nat): set<int> {
    set x | a <= x < a + n && Within(x, a, n)
  }

  function Zeros(a: int, n: nat): Memory {
    map x | x in Range(a, n) :: 0
  }

  function Without(m: Memory, a: int, n: nat): Memory {
    map x | x in m && !(a <= x < a + n) :: m[x]
  }
}
