/** The memory and string stubs over guest memory (api_stubs.hpp), for characters of one or two bytes. */
module Stubs {
  import opened Engine

  const MAX_BUFFER: nat := 0x100000

  /** The size of a character: 1 for the narrow stubs, 2 for the wide ones. */
  type Width = w: nat | w == 1 || w == 2 witness 1

  /** The size in bytes of n characters. */
  function Off(n: nat, w: Width): nat {
    if w == 1 then n else 2 * n
  }

  function Clamped(n: nat): nat {
    if n > MAX_BUFFER then MAX_BUFFER else n
  }

  /** The text at a stops here: the character is the terminator or cannot be read. */
  predicate Stops(m: Memory, a: nat, w: Width) {
    Mapped(m, a, w) ==> Bytes(m, a, w) == ZeroBytes(w)
  }

  /** The number of characters at a before the text stops, counting to a limit. */
  function TextLength(m: Memory, a: nat, w: Width, limit: nat): (n: nat)
    ensures n <= limit
    decreases limit
  {
    if limit == 0 || Stops(m, a, w) then 0 else 1 + TextLength(m, a + w, w, limit - 1)
  }

  /** Whether the n-byte range at a and the k-byte range at b have no byte in common. */
  predicate Apart(a: nat, n: nat, b: nat, k: nat) {
    a + n <= b || b + k <= a
  }

  // ----- What a sequence of reads and writes amounts to

  /** Character by character, up to and including the terminator. */
  function CopyText(m: Memory, dest: nat, src: nat, w: Width, limit: nat): (r: Memory)
    ensures r.Keys == m.Keys
    decreases limit
  {
    if limit == 0 || !Mapped(m, src, w) then m
    else
      var ch := Bytes(m, src, w);
      if ch == ZeroBytes(w) then Store(m, dest, ch)
      else CopyText(Store(m, dest, ch), dest + w, src + w, w, limit - 1)
  }

  /** Exactly count characters, all zero from the first one at which the text stops. */
  function CopyPadded(m: Memory, dest: nat, src: nat, w: Width, count: nat, ended: bool): (r: Memory)
    ensures r.Keys == m.Keys
    decreases count
  {
    if count == 0 then m
    else if !ended && !Stops(m, src, w) then
      CopyPadded(Store(m, dest, Bytes(m, src, w)), dest + w, src + w, w, count - 1, false)
    else
      CopyPadded(Store(m, dest, ZeroBytes(w)), dest + w, src + w, w, count - 1, true)
  }

  /** r is m with n bytes moved from src to dest, as if all were read before any was written. */
  predicate MovesBlock(m: Memory, r: Memory, dest: nat, src: nat, n: nat) {
    Mapped(m, src, n) && Mapped(m, dest, n) && r == Update(m, dest, Bytes(m, src, n))
  }

  // ----- The stubs

  /** memcpy, memmove and RtlMoveMemory. */
  method Memcpy(uc: Uc, dest: nat, src: nat, count: nat) returns (ret: nat)
    modifies uc
    ensures ret == dest
    ensures uc.mem ==
      if 0 < count <= MAX_BUFFER && Mapped(old(uc.mem), src, count) && Mapped(old(uc.mem), dest, count)
      then Update(old(uc.mem), dest, Bytes(old(uc.mem), src, count)) else old(uc.mem)
  {
    if count > 0 && count <= MAX_BUFFER {
      var ok, buf := uc.MemRead(src, count);
      if ok {
        var _ := uc.MemWrite(dest, buf);
      }
    }
    ret := dest;
  }

  /** memset. */
  method Memset(uc: Uc, dest: nat, fill: byte, count: nat) returns (ret: nat)
    modifies uc
    ensures ret == dest
    ensures var fits := 0 < count <= MAX_BUFFER && Mapped(old(uc.mem), dest, count);
      && uc.mem.Keys == old(uc.mem.Keys)
      && forall x :: x in uc.mem ==>
           uc.mem[x] == if fits && dest <= x < dest + count then fill else old(uc.mem)[x]
  {
    if count > 0 && count <= MAX_BUFFER {
      var _ := uc.MemWrite(dest, seq(count, _ => fill));
    }
    ret := dest;
  }

  /** strlen and wcslen. */
  method Strlen(uc: Uc, str: nat, w: Width) returns (len: nat)
    ensures len == TextLength(uc.mem, str, w, MAX_BUFFER)
  {
    hide *;
    len := 0;
    ghost var all := TextLength(uc.mem, str, w, MAX_BUFFER);
    OffSteps(0, w);
    while len < MAX_BUFFER
      invariant len <= MAX_BUFFER
      invariant all == len + TextLength(uc.mem, str + Off(len, w), w, MAX_BUFFER - len)
    {
      OffSteps(len, w);
      TextLengthStep(uc.mem, str + Off(len, w), w, MAX_BUFFER - len);
      var ok, ch := uc.MemRead(str + Off(len, w), w);
      if !ok || ch == ZeroBytes(w) {
        break;
      }
      len := len + 1;
    }
    TextLengthStep(uc.mem, str + Off(len, w), w, MAX_BUFFER - len);
  }

  /** strcpy and wcscpy. */
  method Strcpy(uc: Uc, dest: nat, src: nat, w: Width) returns (ret: nat)
    modifies uc
    ensures ret == dest
    ensures uc.mem == CopyText(old(uc.mem), dest, src, w, MAX_BUFFER)
  {
    CopyFrom(uc, dest, src, w, MAX_BUFFER);
    ret := dest;
  }

  /** strcat and wcscat: the copy starts at the end of the text at dest and shares its limit. */
  method Strcat(uc: Uc, dest: nat, src: nat, w: Width) returns (ret: nat)
    modifies uc
    ensures ret == dest
    ensures uc.mem == Appended(old(uc.mem), dest, src, w)
  {
    hide TextLength, CopyText, Off, Mapped;
    var len := Strlen(uc, dest, w);
    CopyFrom(uc, dest + Off(len, w), src, w, MAX_BUFFER - len);
    ret := dest;
  }

  function Appended(m: Memory, dest: nat, src: nat, w: Width): Memory {
    var len := TextLength(m, dest, w, MAX_BUFFER);
    CopyText(m, dest + Off(len, w), src, w, MAX_BUFFER - len)
  }

  /** The do-while loop of strcpy and strcat. */
  method CopyFrom(uc: Uc, dest: nat, src: nat, w: Width, limit: nat)
    modifies uc
    ensures uc.mem == CopyText(old(uc.mem), dest, src, w, limit)
  {
    hide *;
    var i := 0;
    var more := true;
    ghost var all := CopyText(uc.mem, dest, src, w, limit);
    OffSteps(0, w);
    while more
      invariant i <= limit
      invariant more ==> CopyText(uc.mem, dest + Off(i, w), src + Off(i, w), w, limit - i) == all
      invariant !more ==> uc.mem == all
      decreases limit - i, more
    {
      CopyTextStep(uc.mem, dest + Off(i, w), src + Off(i, w), w, limit - i);
      if i >= limit {
        break;
      }
      OffSteps(i, w);
      CopyTextStep(uc.mem, dest + Off(i, w), src + Off(i, w), w, limit - i);
      var ok, ch := uc.MemRead(src + Off(i, w), w);
      if !ok {
        break;
      }
      var _ := uc.MemWrite(dest + Off(i, w), ch);
      i := i + 1;
      more := ch != ZeroBytes(w);
    }
  }

  /** strncpy and wcsncpy. */
  method Strncpy(uc: Uc, dest: nat, src: nat, count: nat, w: Width) returns (ret: nat)
    modifies uc
    ensures ret == dest
    ensures uc.mem == CopyPadded(old(uc.mem), dest, src, w, Clamped(count), false)
  {
    hide *;
    var n := Clamped(count);
    var ended := false;
    var i := 0;
    ghost var all := CopyPadded(uc.mem, dest, src, w, n, false);
    OffSteps(0, w);
    while i < n
      invariant i <= n
      invariant CopyPadded(uc.mem, dest + Off(i, w), src + Off(i, w), w, n - i, ended) == all
    {
      OffSteps(i, w);
      CopyPaddedStep(uc.mem, dest + Off(i, w), src + Off(i, w), w, n - i, ended);
      var ok, ch := false, [];
      if !ended {
        ok, ch := uc.MemRead(src + Off(i, w), w);
      }
      if ok && ch != ZeroBytes(w) {
        var _ := uc.MemWrite(dest + Off(i, w), ch);
      } else {
        ended := true;
        var _ := uc.MemWrite(dest + Off(i, w), ZeroBytes(w));
      }
      i := i + 1;
    }
    CopyPaddedStep(uc.mem, dest + Off(i, w), src + Off(i, w), w, n - i, ended);
    ret := dest;
  }

  lemma OffSteps(n: nat, w: Width)
    ensures Off(0, w) == 0 && Off(n + 1, w) == w + Off(n, w)
  {
  }

  lemma TextLengthStep(m: Memory, a: nat, w: Width, limit: nat)
    ensures TextLength(m, a, w, limit) ==
      if limit == 0 || !Mapped(m, a, w) || Bytes(m, a, w) == ZeroBytes(w) then 0 else 1 + TextLength(m, a + w, w, limit - 1)
  {
  }

  lemma CopyTextStep(m: Memory, dest: nat, src: nat, w: Width, limit: nat)
    ensures CopyText(m, dest, src, w, limit) ==
      if limit == 0 || !Mapped(m, src, w) then m
      else
        var ch := Bytes(m, src, w);
        var next := if Mapped(m, dest, |ch|) then Update(m, dest, ch) else m;
        if ch == ZeroBytes(w) then next else CopyText(next, dest + w, src + w, w, limit - 1)
  {
  }

  lemma CopyPaddedStep(m: Memory, dest: nat, src: nat, w: Width, count: nat, ended: bool)
    ensures CopyPadded(m, dest, src, w, count, ended) ==
      if count == 0 then m
      else
        var more := !ended && Mapped(m, src, w) && Bytes(m, src, w) != ZeroBytes(w);
        var ch := if more then Bytes(m, src, w) else ZeroBytes(w);
        var next := if Mapped(m, dest, |ch|) then Update(m, dest, ch) else m;
        CopyPadded(next, dest + w, src + w, w, count - 1, !more)
  {
  }

  // ----- What the copies amount to

  lemma AppendUpdates(m: Memory, a: nat, first: seq<byte>, rest: seq<byte>)
    requires Mapped(m, a, |first| + |rest|)
    ensures Mapped(m, a, |first|) && Mapped(m, a + |first|, |rest|)
    ensures Mapped(Update(m, a, first), a + |first|, |rest|)
    ensures Update(Update(m, a, first), a + |first|, rest) == Update(m, a, first + rest)
  {
  }

  lemma AppendBytes(m: Memory, a: nat, n: nat, k: nat)
    requires Mapped(m, a, n + k)
    ensures Mapped(m, a, n) && Mapped(m, a + n, k) && Bytes(m, a, n) + Bytes(m, a + n, k) == Bytes(m, a, n + k)
  {
    var all := Bytes(m, a, n + k);
    var tail := Bytes(m, a + n, k);
    forall j | n <= j < n + k
      ensures all[j] == tail[j - n]
    {
      assert tail[j - n] == m[a + n + (j - n)];
    }
  }

  /** Bytes apart from the ones written keep their values. */
  lemma ApartKeeps(m: Memory, a: nat, data: seq<byte>, b: nat, n: nat)
    requires Mapped(m, a, |data|) && Mapped(m, b, n) && Apart(a, |data|, b, n)
    ensures Mapped(Update(m, a, data), b, n) && Bytes(Update(m, a, data), b, n) == Bytes(m, b, n)
  {
  }

  lemma WrittenBytes(m: Memory, a: nat, data: seq<byte>)
    requires Mapped(m, a, |data|)
    ensures Mapped(Update(m, a, data), a, |data|) && Bytes(Update(m, a, data), a, |data|) == data
  {
  }

  // ----- Texts that agree

  /** The number of characters a copy of the text moves: the terminator too when it is reached. */
  function Copied(m: Memory, a: nat, w: Width, limit: nat): (n: nat)
    ensures n <= limit
  {
    var len := TextLength(m, a, w, limit);
    if len < limit && Mapped(m, a + Off(len, w), w) then len + 1 else len
  }

  lemma CopiedStep(m: Memory, a: nat, w: Width, limit: nat)
    ensures Copied(m, a, w, limit) ==
      if limit == 0 || !Mapped(m, a, w) then 0
      else if Bytes(m, a, w) == ZeroBytes(w) then 1
      else 1 + Copied(m, a + w, w, limit - 1)
  {
    OffSteps(0, w);
    if limit > 0 && !Stops(m, a, w) {
      hide Off, Mapped;
      OffSteps(TextLength(m, a + w, w, limit - 1), w);
    }
  }

  lemma {:induction false} CopiedIsMapped(m: Memory, a: nat, w: Width, limit: nat)
    ensures Mapped(m, a, Off(Copied(m, a, w, limit), w))
    decreases limit
  {
    hide Copied, TextLength, Off;
    CopiedStep(m, a, w, limit);
    OffSteps(0, w);
    if limit > 0 && Mapped(m, a, w) && Bytes(m, a, w) != ZeroBytes(w) {
      CopiedIsMapped(m, a + w, w, limit - 1);
      OffSteps(Copied(m, a + w, w, limit - 1), w);
    }
  }

  /** If the first k characters at b are those of a longer text at a, then the text at b goes on from there. */
  lemma {:induction false} PrefixAgrees(m: Memory, a: nat, r: Memory, b: nat, w: Width, limit: nat, k: nat)
    requires k <= TextLength(m, a, w, limit)
    requires Mapped(m, a, Off(k, w)) && Mapped(r, b, Off(k, w)) && Bytes(m, a, Off(k, w)) == Bytes(r, b, Off(k, w))
    ensures TextLength(r, b, w, limit) == k + TextLength(r, b + Off(k, w), w, limit - k)
    decreases k
  {
    hide *;
    OffSteps(0, w);
    if k > 0 {
      TextLengthStep(m, a, w, limit);
      TextLengthStep(r, b, w, limit);
      OffSteps(k - 1, w);
      SplitBytes(m, a, r, b, w, Off(k - 1, w));
      PrefixAgrees(m, a + w, r, b + w, w, limit - 1, k - 1);
    }
  }

  lemma SplitBytes(m: Memory, a: nat, r: Memory, b: nat, n: nat, k: nat)
    requires Mapped(m, a, n + k) && Mapped(r, b, n + k) && Bytes(m, a, n + k) == Bytes(r, b, n + k)
    ensures Mapped(m, a, n) && Mapped(r, b, n) && Bytes(m, a, n) == Bytes(r, b, n)
    ensures Mapped(m, a + n, k) && Mapped(r, b + n, k) && Bytes(m, a + n, k) == Bytes(r, b + n, k)
  {
    AppendBytes(m, a, n, k);
    AppendBytes(r, b, n, k);
    var all := Bytes(m, a, n + k);
    assert all[..n] == Bytes(m, a, n) == Bytes(r, b, n);
    assert all[n..] == Bytes(m, a + n, k) == Bytes(r, b + n, k);
  }

  /** A copy of a text is as long as the text, or runs on where the text was cut off. */
  lemma TextAgrees(m: Memory, a: nat, r: Memory, b: nat, w: Width, limit: nat)
    requires var n := Off(Copied(m, a, w, limit), w);
      Mapped(m, a, n) && Mapped(r, b, n) && Bytes(m, a, n) == Bytes(r, b, n)
    ensures var len := TextLength(m, a, w, limit);
      TextLength(r, b, w, limit) ==
        len + if Copied(m, a, w, limit) > len then 0 else TextLength(r, b + Off(len, w), w, limit - len)
  {
    var len := TextLength(m, a, w, limit);
    if Copied(m, a, w, limit) > len {
      hide Off, Mapped, TextLength;
      OffSteps(len, w);
      AtLength(m, a, w, limit);
      SplitBytes(m, a, r, b, Off(len, w), w);
      PrefixAgrees(m, a, r, b, w, limit, len);
      TextLengthStep(r, b + Off(len, w), w, limit - len);
    } else {
      hide Off, Mapped, TextLength;
      PrefixAgrees(m, a, r, b, w, limit, len);
    }
  }

  /** A text stops at its length. */
  lemma {:induction false} AtLength(m: Memory, a: nat, w: Width, limit: nat)
    ensures var len := TextLength(m, a, w, limit); len == limit || Stops(m, a + Off(len, w), w)
    decreases limit
  {
    hide Off, Mapped, TextLength, Bytes;
    TextLengthStep(m, a, w, limit);
    OffSteps(0, w);
    if limit > 0 && !Stops(m, a, w) {
      AtLength(m, a + w, w, limit - 1);
      OffSteps(TextLength(m, a + w, w, limit - 1), w);
    }
  }

  lemma SameKeysMapped(m: Memory, r: Memory, a: nat, n: nat)
    requires m.Keys == r.Keys
    ensures Mapped(m, a, n) <==> Mapped(r, a, n)
  {
    assert forall x :: x in m <==> x in m.Keys;
    assert forall x :: x in r <==> x in r.Keys;
  }

  /** A text keeps its length when its bytes, the terminator included, keep their values. */
  lemma TextIsKept(m: Memory, r: Memory, a: nat, w: Width, limit: nat)
    requires m.Keys == r.Keys
    requires var n := Off(Copied(m, a, w, limit), w);
      Mapped(m, a, n) && Mapped(r, a, n) && Bytes(m, a, n) == Bytes(r, a, n)
    ensures TextLength(r, a, w, limit) == TextLength(m, a, w, limit)
    ensures Copied(r, a, w, limit) == Copied(m, a, w, limit)
  {
    hide Mapped, Bytes, TextLength, Off;
    TextAgrees(m, a, r, a, w, limit);
    var len := TextLength(m, a, w, limit);
    SameKeysMapped(m, r, a + Off(len, w), w);
    TextLengthStep(r, a + Off(len, w), w, limit - len);
  }

  lemma EmptyUpdate(m: Memory, a: nat)
    ensures Mapped(m, a, 0) && Update(m, a, []) == m && Bytes(m, a, 0) == []
  {
  }

  /** Copying a text moves its characters as one block: nothing else changes. */
  lemma {:induction false} CopyTextMoves(m: Memory, dest: nat, src: nat, w: Width, limit: nat)
    requires var n := Off(Copied(m, src, w, limit), w); Mapped(m, dest, n) && Apart(dest, n, src, n)
    ensures MovesBlock(m, CopyText(m, dest, src, w, limit), dest, src, Off(Copied(m, src, w, limit), w))
    decreases limit
  {
    hide Mapped, Bytes, Update, Copied, CopyText, TextLength, Off;
    CopiedIsMapped(m, src, w, limit);
    CopiedStep(m, src, w, limit);
    CopyTextStep(m, dest, src, w, limit);
    OffSteps(0, w);
    if limit == 0 || !Mapped(m, src, w) {
      EmptyUpdate(m, dest);
      EmptyUpdate(m, src);
    } else if Bytes(m, src, w) != ZeroBytes(w) {
      var k := Copied(m, src + w, w, limit - 1);
      OffSteps(k, w);
      var n := Off(k, w);
      var ch := Bytes(m, src, w);
      AppendBytes(m, src, w, n);
      var rest := Bytes(m, src + w, n);
      AppendUpdates(m, dest, ch, rest);
      var next := Update(m, dest, ch);
      ApartKeeps(m, dest, ch, src + w, n);
      TextIsKept(m, next, src + w, w, limit - 1);
      CopyTextMoves(next, dest + w, src + w, w, limit - 1);
    } else {
      OffSteps(0, w);
    }
  }

  /** Counting to a smaller limit only cuts the count off. */
  lemma {:induction false} LengthToLimit(m: Memory, a: nat, w: Width, limit: nat, most: nat)
    requires limit <= most
    ensures var n := TextLength(m, a, w, most); TextLength(m, a, w, limit) == if n < limit then n else limit
    decreases limit
  {
    hide TextLength, Mapped, Bytes;
    TextLengthStep(m, a, w, limit);
    TextLengthStep(m, a, w, most);
    if limit > 0 && !Stops(m, a, w) {
      LengthToLimit(m, a + w, w, limit - 1, most - 1);
    }
  }

  /** What the copy leaves at dest is as long as the text, exactly if the copy was cut off by the limit or ended. */
  lemma CopyLength(m: Memory, dest: nat, src: nat, w: Width, limit: nat)
    requires var n := Off(Copied(m, src, w, limit), w); Mapped(m, dest, n) && Apart(dest, n, src, n)
    ensures var len := TextLength(m, src, w, limit);
      && (TextLength(CopyText(m, dest, src, w, limit), dest, w, limit) == len
          <==> Copied(m, src, w, limit) > len || len == limit || Stops(m, dest + Off(len, w), w))
      && TextLength(CopyText(m, dest, src, w, limit), dest, w, limit) >= len
  {
    hide Mapped, Bytes, Update, CopyText, TextLength, Off;
    CopyTextMoves(m, dest, src, w, limit);
    var len := TextLength(m, src, w, limit);
    var n := Off(Copied(m, src, w, limit), w);
    var text := Bytes(m, src, n);
    var r := Update(m, dest, text);
    WrittenBytes(m, dest, text);
    TextAgrees(m, src, r, dest, w, limit);
    if Copied(m, src, w, limit) == len {
      var a := dest + Off(len, w);
      SameKeysMapped(m, r, a, w);
      if Mapped(m, a, w) {
        ApartKeeps(m, dest, text, a, w);
      }
      TextLengthStep(r, a, w, limit - len);
    }
  }

  /** strcpy: the text moves as one block, and strlen of both ends agree exactly if dest ends up terminated. */
  lemma StrcpyLaw(m: Memory, dest: nat, src: nat, w: Width)
    requires var n := Off(Copied(m, src, w, MAX_BUFFER), w); Mapped(m, dest, n) && Apart(dest, n, src, n)
    ensures var n := Off(Copied(m, src, w, MAX_BUFFER), w);
      var len := TextLength(m, src, w, MAX_BUFFER);
      var r := CopyText(m, dest, src, w, MAX_BUFFER);
      && MovesBlock(m, r, dest, src, n)
      && TextLength(r, src, w, MAX_BUFFER) == len
      && (TextLength(r, dest, w, MAX_BUFFER) == TextLength(r, src, w, MAX_BUFFER)
          <==> Copied(m, src, w, MAX_BUFFER) > len || len == MAX_BUFFER || Stops(m, dest + Off(len, w), w))
  {
    hide Mapped, Bytes, Update, Copied, CopyText, TextLength, Off, Stops;
    var n := Off(Copied(m, src, w, MAX_BUFFER), w);
    CopyTextMoves(m, dest, src, w, MAX_BUFFER);
    CopyLength(m, dest, src, w, MAX_BUFFER);
    ApartKeeps(m, dest, Bytes(m, src, n), src, n);
    TextIsKept(m, Update(m, dest, Bytes(m, src, n)), src, w, MAX_BUFFER);
  }

  /** strcat: strlen of dest becomes the sum, or the limit when the sum is past it, exactly if dest ends up terminated. */
  lemma StrcatLaw(m: Memory, dest: nat, src: nat, w: Width)
    requires var d := TextLength(m, dest, w, MAX_BUFFER);
      var n := Off(Copied(m, src, w, MAX_BUFFER - d), w);
      Mapped(m, dest + Off(d, w), n) && Apart(dest + Off(d, w), n, src, n)
    ensures var d := TextLength(m, dest, w, MAX_BUFFER);
      var n := Off(Copied(m, src, w, MAX_BUFFER - d), w);
      var r := Appended(m, dest, src, w);
      var moved := TextLength(m, src, w, MAX_BUFFER - d);
      && MovesBlock(m, r, dest + Off(d, w), src, n)
      && d + moved == Clamped(d + TextLength(m, src, w, MAX_BUFFER))
      && (TextLength(r, dest, w, MAX_BUFFER) == d + moved
          <==> Copied(m, src, w, MAX_BUFFER - d) > moved || d + moved == MAX_BUFFER
               || Stops(m, dest + Off(d, w) + Off(moved, w), w))
  {
    hide Mapped, Bytes, Update, Copied, CopyText, TextLength, Off, Stops;
    var d := TextLength(m, dest, w, MAX_BUFFER);
    var rest := MAX_BUFFER - d;
    var end := dest + Off(d, w);
    var n := Off(Copied(m, src, w, rest), w);
    CopyTextMoves(m, end, src, w, rest);
    CopyLength(m, end, src, w, rest);
    LengthToLimit(m, src, w, rest, MAX_BUFFER);
    var r := Update(m, end, Bytes(m, src, n));
    FirstIsMapped(m, dest, w, MAX_BUFFER);
    ApartKeeps(m, end, Bytes(m, src, n), dest, Off(d, w));
    PrefixAgrees(m, dest, r, dest, w, MAX_BUFFER, d);
  }

  lemma OffGrows(a: nat, b: nat, w: Width)
    requires a <= b
    ensures Off(a, w) <= Off(b, w)
  {
  }

  lemma CopiedCovers(m: Memory, a: nat, w: Width, limit: nat)
    ensures TextLength(m, a, w, limit) <= Copied(m, a, w, limit)
  {
  }

  lemma FirstIsMapped(m: Memory, a: nat, w: Width, limit: nat)
    ensures Mapped(m, a, Off(TextLength(m, a, w, limit), w))
  {
    CopiedIsMapped(m, a, w, limit);
  }

  lemma {:induction false} PadsWithZeros(m: Memory, dest: nat, src: nat, w: Width, count: nat)
    requires Mapped(m, dest, Off(count, w))
    ensures CopyPadded(m, dest, src, w, count, true) == Update(m, dest, ZeroBytes(Off(count, w)))
    decreases count
  {
    hide Mapped, Bytes, Update, CopyPadded, Off;
    CopyPaddedStep(m, dest, src, w, count, true);
    OffSteps(0, w);
    if count == 0 {
      EmptyUpdate(m, dest);
      assert ZeroBytes(0) == [];
    } else {
      OffSteps(count - 1, w);
      var n := Off(count - 1, w);
      AppendUpdates(m, dest, ZeroBytes(w), ZeroBytes(n));
      PadsWithZeros(Update(m, dest, ZeroBytes(w)), dest + w, src + w, w, count - 1);
      assert ZeroBytes(w) + ZeroBytes(n) == ZeroBytes(w + n);
    }
  }

  /** strncpy writes exactly count characters: the text, cut off at count or padded with zeros. */
  lemma {:induction false} StrncpyLaw(m: Memory, dest: nat, src: nat, w: Width, count: nat)
    requires var n := Off(Copied(m, src, w, count), w);
      Mapped(m, dest, Off(count, w)) && Apart(dest, Off(count, w), src, n)
    ensures var n := Off(TextLength(m, src, w, count), w);
      && Mapped(m, src, n) && n <= Off(count, w)
      && CopyPadded(m, dest, src, w, count, false) == Update(m, dest, Bytes(m, src, n) + ZeroBytes(Off(count, w) - n))
    decreases count
  {
    hide Mapped, Bytes, Update, Copied, CopyPadded, TextLength, Off;
    CopyPaddedStep(m, dest, src, w, count, false);
    TextLengthStep(m, src, w, count);
    CopiedStep(m, src, w, count);
    OffSteps(0, w);
    if TextLength(m, src, w, count) == 0 {
      EmptyUpdate(m, src);
      PadsWithZeros(m, dest, src, w, count);
      CopyPaddedStep(m, dest, src, w, count, true);
      assert [] + ZeroBytes(Off(count, w)) == ZeroBytes(Off(count, w));
    } else {
      var ch := Bytes(m, src, w);
      OffSteps(count - 1, w);
      AppendBytes(m, dest, w, Off(count - 1, w));
      var next := Update(m, dest, ch);
      FirstIsMapped(m, src, w, count);
      CopiedIsMapped(m, src + w, w, count - 1);
      OffSteps(Copied(m, src + w, w, count - 1), w);
      OffSteps(TextLength(m, src + w, w, count - 1), w);
      var n := Off(TextLength(m, src + w, w, count - 1), w);
      ApartKeeps(m, dest, ch, src + w, Off(Copied(m, src + w, w, count - 1), w));
      TextIsKept(m, next, src + w, w, count - 1);
      SameKeysMapped(m, next, dest + w, Off(count - 1, w));
      StrncpyLaw(next, dest + w, src + w, w, count - 1);
      AppendBytes(m, src, w, n);
      CopiedCovers(m, src + w, w, count - 1);
      OffGrows(TextLength(m, src + w, w, count - 1), Copied(m, src + w, w, count - 1), w);
      ApartKeeps(m, dest, ch, src + w, n);
      var rest := Bytes(m, src + w, n) + ZeroBytes(Off(count - 1, w) - n);
      AppendUpdates(m, dest, ch, rest);
      assert ch + rest == (ch + Bytes(m, src + w, n)) + ZeroBytes(Off(count - 1, w) - n);
    }
  }

  /** The length of a text in terms of its characters: none of the first n stops it, and character n does. */
  lemma {:induction false} TextLengthIff(m: Memory, a: nat, w: Width, limit: nat, n: nat)
    requires n <= limit
    ensures TextLength(m, a, w, limit) == n <==>
            (forall i: nat :: i < n ==> !Stops(m, a + Off(i, w), w)) && (n == limit || Stops(m, a + Off(n, w), w))
    decreases limit
  {
    hide TextLength, Mapped, Bytes, Off, Stops;
    var len := TextLength(m, a, w, limit);
    AtLength(m, a, w, limit);
    forall i: nat | i < len
      ensures !Stops(m, a + Off(i, w), w)
    {
      BeforeLength(m, a, w, limit, i);
    }
  }

  lemma {:induction false} BeforeLength(m: Memory, a: nat, w: Width, limit: nat, i: nat)
    requires i < TextLength(m, a, w, limit)
    ensures !Stops(m, a + Off(i, w), w)
    decreases i
  {
    hide Mapped, Bytes, Off, Stops;
    OffSteps(0, w);
    if i > 0 {
      OffSteps(i - 1, w);
      BeforeLength(m, a + w, w, limit - 1, i - 1);
    }
  }
}
