/** Lane arithmetic of the vector handlers (handler.cpp) on little-endian byte vectors. */
module Lanes {
  import opened Engine

  function Pow(n: nat): (p: nat)
    ensures p > 0
  {
    if n == 0 then 1 else 256 * Pow(n - 1)
  }

  /** A lane as an unsigned number. */
  function Value(s: seq<byte>): (v: nat)
    ensures v < Pow(|s|)
  {
    if s == [] then 0 else s[0] + 256 * Value(s[1..])
  }

  /** The number, cut off to w bytes, as a lane. */
  function Digits(v: int, w: nat): (s: seq<byte>)
    ensures |s| == w
    decreases w
  {
    if w == 0 then [] else [v % 256] + Digits(v / 256, w - 1)
  }

  /** A lane read as two's complement. */
  function Signed(v: nat, w: nat): int {
    if 2 * v < Pow(w) then v else v - Pow(w)
  }

  lemma {:induction false} DigitsOfValue(s: seq<byte>)
    ensures Digits(Value(s), |s|) == s
  {
    hide Pow, Value, Digits;
    DigitsStep(Value(s), |s|);
    if s != [] {
      ValueStep(s);
      DigitsOfValue(s[1..]);
      assert [s[0]] + s[1..] == s;
    } else {
      assert s == [];
    }
  }

  lemma ValueStep(s: seq<byte>)
    requires s != []
    ensures Value(s) == s[0] + 256 * Value(s[1..]) && Value(s) % 256 == s[0] && Value(s) / 256 == Value(s[1..])
  {
    ValueUnfolds(s);
    hide *;
    LowByte(Value(s), s[0], Value(s[1..]));
  }

  lemma ValueUnfolds(s: seq<byte>)
    requires s != []
    ensures Value(s) == s[0] + 256 * Value(s[1..])
  {
    hide Pow;
  }

  lemma LowByte(x: nat, b: byte, v: nat)
    requires x == b + 256 * v
    ensures x % 256 == b && x / 256 == v
  {
  }

  lemma DigitsStep(v: int, w: nat)
    ensures Digits(v, w) == if w == 0 then [] else [v % 256] + Digits(v / 256, w - 1)
  {
  }

  lemma {:induction false} ValueOfDigits(v: int, w: nat)
    ensures exists q: int :: v == q * Pow(w) + Value(Digits(v, w))
    decreases w
  {
    hide Value, Digits, Pow;
    DigitsStep(v, w);
    if w == 0 {
      NoDigits(v);
    } else {
      ValueOfDigits(v / 256, w - 1);
      var q: int :| v / 256 == q * Pow(w - 1) + Value(Digits(v / 256, w - 1));
      var s := Digits(v, w);
      ValueStep(s);
      assert s[1..] == Digits(v / 256, w - 1);
      PowStep(w);
      CarryOne(v, q, Pow(w - 1), Value(s[1..]));
      assert v == q * Pow(w) + Value(s);
    }
  }

  lemma NoDigits(v: int)
    ensures v == v * Pow(0) + Value(Digits(v, 0))
  {
  }

  lemma PowStep(w: nat)
    requires w > 0
    ensures Pow(w) == 256 * Pow(w - 1)
  {
  }

  lemma CarryOne(v: int, q: int, p: int, d: int)
    requires v / 256 == q * p + d
    ensures v == q * (256 * p) + (v % 256 + 256 * d)
  {
    assert q * (256 * p) == 256 * (q * p);
  }

  /** Numbers that differ by a multiple of Pow(w) have the same digits. */
  lemma {:induction false} SameDigits(v: int, q: int, w: nat)
    ensures Digits(v + q * Pow(w), w) == Digits(v, w)
    decreases w
  {
    if w > 0 {
      var t := q * Pow(w - 1);
      assert q * Pow(w) == 256 * t;
      assert (v + 256 * t) % 256 == v % 256 && (v + 256 * t) / 256 == v / 256 + t;
      SameDigits(v / 256, q, w - 1);
    }
  }

  lemma ModIsUnique(v: int, q: int, r: nat, p: nat)
    requires v == q * p + r && r < p
    ensures v % p == r
  {
    var d := v / p - q;
    assert d * p == r - v % p by {
      assert v == p * (v / p) + v % p;
      assert d * p == p * (v / p) - q * p;
    }
    if d > 0 {
      TimesAtLeast(d, p);
      assert false;
    } else if d < 0 {
      TimesAtLeast(-d, p);
      assert false;
    }
  }

  lemma TimesAtLeast(d: int, p: int)
    requires d >= 1 && p >= 0
    ensures d * p >= p && (-d) * p <= -p
  {
    assert d * p == p + (d - 1) * p;
  }

  /** Storing a number keeps its remainder. */
  lemma StoredValue(v: int, w: nat)
    ensures Value(Digits(v, w)) == v % Pow(w)
  {
    ValueOfDigits(v, w);
    var q: int :| v == q * Pow(w) + Value(Digits(v, w));
    ModIsUnique(v, q, Value(Digits(v, w)), Pow(w));
  }

  // ----- Addition, subtraction, multiplication

  /** The size of a lane in bytes. */
  type Width = w: nat | w == 1 || w == 2 || w == 4 || w == 8 witness 1

  datatype Op = Add | Sub | Mull

  function Apply(op: Op, x: nat, y: nat, w: Width): int {
    match op
    case Add => x + y
    case Sub => x - y
    case Mull => Signed(x, w) * Signed(y, w)
  }

  /** n bytes are a whole number of lanes, as the 16 and 32 bytes of a register are. */
  predicate Whole(n: nat, w: Width) {
    n % w == 0
  }

  lemma WholeSteps(n: nat, w: Width)
    requires Whole(n, w)
    ensures if n < w then n == 0 else Whole(n - w, w)
  {
  }

  function Lanewise(op: Op, l: seq<byte>, r: seq<byte>, w: Width): (res: seq<byte>)
    requires |l| == |r|
    decreases |l|
  {
    if |l| < w then []
    else Digits(Apply(op, Value(l[..w]), Value(r[..w]), w), w) + Lanewise(op, l[w..], r[w..], w)
  }

  /** s with the bytes from at on replaced by data. */
  function Splice(s: seq<byte>, at: nat, data: seq<byte>): (r: seq<byte>)
    requires at + |data| <= |s|
    ensures |r| == |s|
  {
    s[..at] + data + s[at + |data|..]
  }

  lemma SpliceMore(s: seq<byte>, at: nat, done: seq<byte>, data: seq<byte>)
    requires at + |done| + |data| <= |s|
    ensures Splice(Splice(s, at, done), at + |done|, data) == Splice(s, at, done + data)
  {
  }

  lemma SpliceOne(s: seq<byte>, at: nat, b: byte)
    requires at < |s|
    ensures s[at := b] == Splice(s, at, [b])
  {
  }

  lemma SpliceNothing(s: seq<byte>, at: nat)
    requires at <= |s|
    ensures Splice(s, at, []) == s
  {
  }

  lemma SpliceFront(s: seq<byte>, data: seq<byte>)
    requires |data| <= |s|
    ensures Splice(s, 0, data) == data + s[|data|..]
  {
  }

  lemma Regroup(a: seq<byte>, b: seq<byte>, c: seq<byte>)
    ensures a + (b + c) == (a + b) + c && [] + c == c && c + [] == c
  {
  }

  method StoreByte(a: array<byte>, at: nat, b: byte)
    requires at < a.Length
    modifies a
    ensures a[..] == Splice(old(a[..]), at, [b])
  {
    hide *;
    SpliceOne(a[..], at, b);
    ghost var pre := a[..];
    a[at] := b;
    assert a[..] == pre[at := b];
  }

  /** done are the low digits of v, and the rest of them are those of rest. */
  ghost predicate DigitsDone(v: int, w: nat, done: seq<byte>, rest: int, left: nat) {
    |done| + left == w && Digits(v, w) == done + Digits(rest, left)
  }

  lemma DigitsStart(v: int, w: nat)
    ensures DigitsDone(v, w, [], v, w)
  {
    Regroup([], [], Digits(v, w));
  }

  lemma DigitsNext(v: int, w: nat, done: seq<byte>, rest: int, left: nat)
    requires DigitsDone(v, w, done, rest, left) && left > 0
    ensures DigitsDone(v, w, done + [rest % 256], rest / 256, left - 1)
  {
    hide Digits;
    DigitsStep(rest, left);
    Regroup(done, [rest % 256], Digits(rest / 256, left - 1));
  }

  lemma DigitsEnd(v: int, w: nat, done: seq<byte>, rest: int)
    requires DigitsDone(v, w, done, rest, 0)
    ensures done == Digits(v, w) && |done| == w
  {
  }

  method StoreLane(a: array<byte>, at: nat, w: Width, v: int)
    requires at + w <= a.Length
    modifies a
    ensures a[..] == Splice(old(a[..]), at, Digits(v, w))
  {
    hide *;
    var rest, left, i := v, w as nat, at;
    ghost var pre := a[..];
    ghost var done: seq<byte> := [];
    SpliceNothing(pre, at);
    DigitsStart(v, w);
    while left > 0
      invariant i + left == at + w && at + |done| == i && DigitsDone(v, w, done, rest, left)
      invariant a[..] == Splice(pre, at, done)
    {
      var b: byte := rest % 256;
      DigitsNext(v, w, done, rest, left);
      SpliceMore(pre, at, done, [b]);
      StoreByte(a, i, b);
      done, rest, left, i := done + [b], rest / 256, left - 1, i + 1;
    }
    DigitsEnd(v, w, done, rest);
  }

  /** The first lanes of the result are done, and the rest is the result for the rest. */
  ghost predicate LanesDone(op: Op, l: seq<byte>, r: seq<byte>, w: Width, done: seq<byte>)
    requires |l| == |r|
  {
    |done| <= |l| && Whole(|l| - |done|, w)
    && Lanewise(op, l, r, w) == done + Lanewise(op, l[|done|..], r[|done|..], w)
  }

  lemma LanesStart(op: Op, l: seq<byte>, r: seq<byte>, w: Width)
    requires |l| == |r| && Whole(|l|, w)
    ensures LanesDone(op, l, r, w, [])
  {
    hide Whole, Lanewise;
    assert l[0..] == l && r[0..] == r;
  }

  /** perform_add, perform_sub and perform_mull: the three loops differ in the operator only. */
  method PerformLanes(op: Op, res: array<byte>, l: seq<byte>, r: seq<byte>, w: Width)
    requires |l| == |r| <= res.Length && Whole(|l|, w)
    modifies res
    ensures res[..] == Lanewise(op, l, r, w) + old(res[|l|..])
  {
    hide *;
    var at := 0;
    ghost var pre := res[..];
    ghost var done: seq<byte> := [];
    SpliceNothing(pre, 0);
    LanesStart(op, l, r, w);
    while at + w <= |l|
      invariant at <= |l| && |done| == at && LanesDone(op, l, r, w, done)
      invariant res[..] == Splice(pre, 0, done)
    {
      var lane := Apply(op, Value(l[at..at + w]), Value(r[at..at + w]), w);
      LanesStep(op, l, r, w, done);
      SpliceMore(pre, 0, done, Digits(lane, w));
      StoreLane(res, at, w, lane);
      done := done + Digits(lane, w);
      at := at + w;
    }
    LanesEnd(op, l, r, w, done);
    SpliceFront(pre, done);
  }

  lemma LanesStep(op: Op, l: seq<byte>, r: seq<byte>, w: Width, done: seq<byte>)
    requires |l| == |r| && LanesDone(op, l, r, w, done) && |done| + w <= |l|
    ensures var n := |done|;
      LanesDone(op, l, r, w, done + Digits(Apply(op, Value(l[n..n + w]), Value(r[n..n + w]), w), w))
  {
    hide Whole, Lanewise, Digits, Value, Apply;
    var n := |done|;
    WholeSteps(|l| - n, w);
    LanewiseStep(op, l[n..], r[n..], w);
    Slices(l, n, w);
    Slices(r, n, w);
    Regroup(done, Digits(Apply(op, Value(l[n..n + w]), Value(r[n..n + w]), w), w), Lanewise(op, l[n + w..], r[n + w..], w));
  }

  lemma LanesEnd(op: Op, l: seq<byte>, r: seq<byte>, w: Width, done: seq<byte>)
    requires |l| == |r| && LanesDone(op, l, r, w, done) && |done| + w > |l|
    ensures done == Lanewise(op, l, r, w) && |done| == |l|
  {
    hide Whole, Lanewise;
    WholeSteps(|l| - |done|, w);
    LanewiseStep(op, l[|done|..], r[|done|..], w);
  }

  lemma Slices(a: seq<byte>, at: nat, w: nat)
    requires at + w <= |a|
    ensures a[at..][..w] == a[at..at + w] && a[at..][w..] == a[at + w..]
  {
  }

  lemma {:induction false} LanewiseSize(op: Op, l: seq<byte>, r: seq<byte>, w: Width)
    requires |l| == |r| && Whole(|l|, w)
    ensures |Lanewise(op, l, r, w)| == |l|
    decreases |l|
  {
    hide Whole, Digits, Value, Apply;
    WholeSteps(|l|, w);
    if |l| >= w {
      LanewiseSize(op, l[w..], r[w..], w);
    }
  }

  lemma LanewiseStep(op: Op, l: seq<byte>, r: seq<byte>, w: Width)
    requires |l| == |r|
    ensures Lanewise(op, l, r, w) ==
      if |l| < w then []
      else Digits(Apply(op, Value(l[..w]), Value(r[..w]), w), w) + Lanewise(op, l[w..], r[w..], w)
  {
  }

  /** Lane by lane: the bytes at every lane boundary are the result for the two lanes there. */
  lemma {:induction false} LaneOf(op: Op, l: seq<byte>, r: seq<byte>, w: Width, at: nat)
    requires |l| == |r| && Whole(|l|, w) && Whole(at, w) && at + w <= |l|
    ensures at + w <= |Lanewise(op, l, r, w)|
    ensures Value(Lanewise(op, l, r, w)[at..at + w])
         == Apply(op, Value(l[at..at + w]), Value(r[at..at + w]), w) % Pow(w)
    decreases at
  {
    hide Whole, Digits, Value, Apply, Lanewise, Pow;
    LanewiseSize(op, l, r, w);
    LanewiseStep(op, l, r, w);
    WholeSteps(at, w);
    WholeSteps(|l|, w);
    var first := Apply(op, Value(l[..w]), Value(r[..w]), w);
    var rest := Lanewise(op, l[w..], r[w..], w);
    if at < w {
      StoredValue(first, w);
      AppendSlices(Digits(first, w), rest, w);
    } else {
      LaneOf(op, l[w..], r[w..], w, at - w);
      AppendSlices(Digits(first, w), rest, at);
      InnerSlice(l, at, w);
      InnerSlice(r, at, w);
    }
  }

  /** Every lane of a sum, a difference and a product, in numbers. */
  lemma LaneAt(l: seq<byte>, r: seq<byte>, w: Width, at: nat)
    requires |l| == |r| && Whole(|l|, w) && Whole(at, w) && at + w <= |l|
    ensures |Lanewise(Add, l, r, w)| == |Lanewise(Sub, l, r, w)| == |Lanewise(Mull, l, r, w)| == |l|
    ensures Value(Lanewise(Add, l, r, w)[at..at + w]) == (Value(l[at..at + w]) + Value(r[at..at + w])) % Pow(w)
    ensures Value(Lanewise(Sub, l, r, w)[at..at + w]) == (Value(l[at..at + w]) - Value(r[at..at + w])) % Pow(w)
    ensures Value(Lanewise(Mull, l, r, w)[at..at + w]) == (Value(l[at..at + w]) * Value(r[at..at + w])) % Pow(w)
  {
    hide Whole, Digits, Value, Lanewise, Pow, Signed;
    LanewiseSize(Add, l, r, w);
    LanewiseSize(Sub, l, r, w);
    LanewiseSize(Mull, l, r, w);
    LaneOf(Add, l, r, w, at);
    LaneOf(Sub, l, r, w, at);
    LaneOf(Mull, l, r, w, at);
    var x, y := Value(l[at..at + w]), Value(r[at..at + w]);
    MullIsProduct(x, y, w);
    StoredValue(Apply(Mull, x, y, w), w);
  }

  lemma AppendSlices(a: seq<byte>, b: seq<byte>, at: nat)
    requires |a| <= at
    ensures (a + b)[0..|a|] == a
    ensures at <= |b| ==> (a + b)[at..at + |a|] == b[at - |a|..at]
  {
    if at <= |b| {
      forall k | at <= k < at + |a|
        ensures (a + b)[k] == b[k - |a|]
      {
      }
    }
  }

  lemma InnerSlice(a: seq<byte>, at: nat, w: nat)
    requires w <= at && at + w <= |a|
    ensures a[w..][at - w..at] == a[at..at + w]
  {
  }

  lemma MinusTimes(q: int, p: int)
    ensures (-q) * p == -(q * p)
  {
  }

  lemma SubUndoesAddInLane(x: nat, y: nat, w: Width)
    ensures Digits(Value(Digits(x + y, w)) - y, w) == Digits(x, w)
  {
    hide Value, Digits, Pow;
    ValueOfDigits(x + y, w);
    var q: int :| x + y == q * Pow(w) + Value(Digits(x + y, w));
    SameDigits(x, -q, w);
    MinusTimes(q, Pow(w));
  }

  /** Subtracting what was added gives back every lane, wrapped around or not. */
  lemma {:induction false} SubUndoesAdd(l: seq<byte>, r: seq<byte>, w: Width)
    requires |l| == |r| && Whole(|l|, w)
    ensures |Lanewise(Add, l, r, w)| == |l| && Lanewise(Sub, Lanewise(Add, l, r, w), r, w) == l
    decreases |l|
  {
    hide Whole, Digits, Value, Lanewise;
    WholeSteps(|l|, w);
    LanewiseSize(Add, l, r, w);
    LanewiseStep(Add, l, r, w);
    LanewiseStep(Sub, Lanewise(Add, l, r, w), r, w);
    if |l| >= w {
      var sum := Digits(Value(l[..w]) + Value(r[..w]), w);
      var rest := Lanewise(Add, l[w..], r[w..], w);
      assert (sum + rest)[..w] == sum && (sum + rest)[w..] == rest;
      SubUndoesAddInLane(Value(l[..w]), Value(r[..w]), w);
      DigitsOfValue(l[..w]);
      SubUndoesAdd(l[w..], r[w..], w);
      assert l[..w] + l[w..] == l;
    }
  }

  /** The product of the lanes read as signed leaves the same bytes as the product read as unsigned. */
  lemma MullIsProduct(x: nat, y: nat, w: Width)
    ensures Value(Digits(Apply(Mull, x, y, w), w)) == (x * y) % Pow(w)
  {
    hide *;
    var q := SignedIsShifted(x, y, w);
    SameDigits(x * y, q, w);
    StoredValue(x * y, w);
  }

  lemma SignedIsShifted(x: nat, y: nat, w: Width) returns (q: int)
    ensures Apply(Mull, x, y, w) == x * y + q * Pow(w)
  {
    hide Pow;
    var p := Pow(w);
    SignedProduct(x, y, p);
    if Signed(x, w) == x {
      q := if Signed(y, w) == y then 0 else -(x as int);
    } else {
      q := if Signed(y, w) == y then -(y as int) else p - x - y;
    }
  }

  lemma SignedProduct(x: int, y: int, p: int)
    ensures x * (y - p) == x * y + (-x) * p
    ensures (x - p) * y == x * y + (-y) * p
    ensures (x - p) * (y - p) == x * y + (p - x - y) * p
  {
  }

  // ----- Shifts

  function Pow2(n: nat): (p: nat)
    ensures p > 0
  {
    if n == 0 then 1 else 2 * Pow2(n - 1)
  }

  datatype Shift = Left | LogicalRight | ArithmeticRight

  /** x * 2^count, floor(x / 2^count), or the floor of the signed value over 2^count, whatever the count. */
  function Shifted(kind: Shift, x: nat, count: nat, w: Width): int {
    match kind
    case Left => x * Pow2(count)
    case LogicalRight => x / Pow2(count)
    case ArithmeticRight => Signed(x, w) / Pow2(count)
  }

  function ShiftLanes(kind: Shift, s: seq<byte>, count: nat, w: Width): (res: seq<byte>)
    decreases |s|
  {
    if |s| < w then []
    else Digits(Shifted(kind, Value(s[..w]), count, w), w) + ShiftLanes(kind, s[w..], count, w)
  }

  lemma ShiftLanesStep(kind: Shift, s: seq<byte>, count: nat, w: Width)
    ensures ShiftLanes(kind, s, count, w) ==
      if |s| < w then []
      else Digits(Shifted(kind, Value(s[..w]), count, w), w) + ShiftLanes(kind, s[w..], count, w)
  {
  }

  ghost predicate ShiftsDone(kind: Shift, s: seq<byte>, count: nat, w: Width, done: seq<byte>) {
    |done| <= |s| && Whole(|s| - |done|, w)
    && ShiftLanes(kind, s, count, w) == done + ShiftLanes(kind, s[|done|..], count, w)
  }

  lemma ShiftsStart(kind: Shift, s: seq<byte>, count: nat, w: Width)
    requires Whole(|s|, w)
    ensures ShiftsDone(kind, s, count, w, [])
  {
    hide Whole, ShiftLanes;
    assert s[0..] == s;
  }

  /** perform_shift: counts of the lane's width or more take a branch of their own, which agrees with the exact shift. */
  method PerformShift(kind: Shift, res: array<byte>, s: seq<byte>, count: nat, w: Width)
    requires |s| <= res.Length && Whole(|s|, w)
    modifies res
    ensures res[..] == ShiftLanes(kind, s, count, w) + old(res[|s|..])
  {
    hide *;
    var at := 0;
    ghost var pre := res[..];
    ghost var done: seq<byte> := [];
    SpliceNothing(pre, 0);
    ShiftsStart(kind, s, count, w);
    while at + w <= |s|
      invariant at <= |s| && |done| == at && ShiftsDone(kind, s, count, w, done)
      invariant res[..] == Splice(pre, 0, done)
    {
      var lane := ShiftOne(kind, Value(s[at..at + w]), count, w);
      ShiftsStep(kind, s, count, w, done);
      SpliceMore(pre, 0, done, Digits(lane, w));
      StoreLane(res, at, w, lane);
      done := done + Digits(lane, w);
      at := at + w;
    }
    ShiftsEnd(kind, s, count, w, done);
    SpliceFront(pre, done);
  }

  lemma ShiftsStep(kind: Shift, s: seq<byte>, count: nat, w: Width, done: seq<byte>)
    requires ShiftsDone(kind, s, count, w, done) && |done| + w <= |s|
    ensures var n := |done|;
      ShiftsDone(kind, s, count, w, done + Digits(Shifted(kind, Value(s[n..n + w]), count, w), w))
  {
    hide Whole, ShiftLanes, Digits, Value, Shifted;
    var n := |done|;
    WholeSteps(|s| - n, w);
    ShiftLanesStep(kind, s[n..], count, w);
    Slices(s, n, w);
    Regroup(done, Digits(Shifted(kind, Value(s[n..n + w]), count, w), w), ShiftLanes(kind, s[n + w..], count, w));
  }

  lemma ShiftsEnd(kind: Shift, s: seq<byte>, count: nat, w: Width, done: seq<byte>)
    requires ShiftsDone(kind, s, count, w, done) && |done| + w > |s|
    ensures done == ShiftLanes(kind, s, count, w) && |done| == |s|
  {
    hide Whole, ShiftLanes;
    WholeSteps(|s| - |done|, w);
    ShiftLanesStep(kind, s[|done|..], count, w);
  }

  lemma {:induction false} ShiftLanesSize(kind: Shift, s: seq<byte>, count: nat, w: Width)
    requires Whole(|s|, w)
    ensures |ShiftLanes(kind, s, count, w)| == |s|
    decreases |s|
  {
    hide Whole, Digits, Value, Shifted;
    WholeSteps(|s|, w);
    if |s| >= w {
      ShiftLanesSize(kind, s[w..], count, w);
    }
  }

  /** Lane by lane: the bytes at every lane boundary are the shifted lane there. */
  lemma {:induction false} ShiftedLaneOf(kind: Shift, s: seq<byte>, count: nat, w: Width, at: nat)
    requires Whole(|s|, w) && Whole(at, w) && at + w <= |s|
    ensures at + w <= |ShiftLanes(kind, s, count, w)|
    ensures Value(ShiftLanes(kind, s, count, w)[at..at + w]) == Shifted(kind, Value(s[at..at + w]), count, w) % Pow(w)
    decreases at
  {
    hide Whole, Digits, Value, Shifted, ShiftLanes, Pow;
    ShiftLanesSize(kind, s, count, w);
    ShiftLanesStep(kind, s, count, w);
    WholeSteps(at, w);
    WholeSteps(|s|, w);
    var first := Shifted(kind, Value(s[..w]), count, w);
    var rest := ShiftLanes(kind, s[w..], count, w);
    if at < w {
      StoredValue(first, w);
      AppendSlices(Digits(first, w), rest, w);
    } else {
      ShiftedLaneOf(kind, s[w..], count, w, at - w);
      AppendSlices(Digits(first, w), rest, at);
      InnerSlice(s, at, w);
    }
  }

  /** Every lane of a shift, in numbers: x * 2^count, floor(x / 2^count), or the floor of the signed value over 2^count. */
  lemma ShiftedLaneAt(s: seq<byte>, count: nat, w: Width, at: nat)
    requires Whole(|s|, w) && Whole(at, w) && at + w <= |s|
    ensures |ShiftLanes(Left, s, count, w)| == |ShiftLanes(LogicalRight, s, count, w)|
            == |ShiftLanes(ArithmeticRight, s, count, w)| == |s|
    ensures var x := Value(s[at..at + w]);
      && Value(ShiftLanes(Left, s, count, w)[at..at + w]) == (x * Pow2(count)) % Pow(w)
      && Value(ShiftLanes(LogicalRight, s, count, w)[at..at + w]) == x / Pow2(count)
      && Value(ShiftLanes(ArithmeticRight, s, count, w)[at..at + w])
         == ((if 2 * x < Pow(w) then x else x - Pow(w)) / Pow2(count)) % Pow(w)
  {
    hide Whole, Digits, Value, ShiftLanes, Pow, Pow2;
    ShiftLanesSize(Left, s, count, w);
    ShiftLanesSize(LogicalRight, s, count, w);
    ShiftLanesSize(ArithmeticRight, s, count, w);
    ShiftedLaneOf(Left, s, count, w, at);
    ShiftedLaneOf(LogicalRight, s, count, w, at);
    ShiftedLaneOf(ArithmeticRight, s, count, w, at);
    QuotientIsSmall(Value(s[at..at + w]), Pow2(count), Pow(w));
  }

  lemma QuotientIsSmall(x: nat, p: nat, m: nat)
    requires p > 0 && x < m
    ensures (x / p) % m == x / p
  {
    assert x / p <= x by {
      assert x == p * (x / p) + x % p;
      if x / p > x {
        TimesAtLeast(p, x / p);
      }
    }
  }

  /** The body of the loop of perform_shift. */
  method ShiftOne(kind: Shift, x: nat, count: nat, w: Width) returns (v: int)
    requires x < Pow(w)
    ensures Digits(v, w) == Digits(Shifted(kind, x, count, w), w)
  {
    hide Digits, Pow, Pow2;
    if count >= 8 * w {
      if kind == Left || kind == LogicalRight {
        v := 0;
      } else {
        v := if Signed(x, w) < 0 then -1 else 0;
      }
      WideShift(kind, x, count, w);
    } else {
      match kind
      case Left => v := x * Pow2(count);
      case LogicalRight => v := x / Pow2(count);
      case ArithmeticRight => v := Signed(x, w) / Pow2(count);
    }
  }

  lemma {:induction false} Pow2Adds(a: nat, b: nat)
    ensures Pow2(a + b) == Pow2(a) * Pow2(b)
    decreases b
  {
    if b > 0 {
      Pow2Adds(a, b - 1);
      TimesTwice(Pow2(a), Pow2(b - 1));
    }
  }

  lemma TimesTwice(x: int, y: int)
    ensures x * (2 * y) == 2 * (x * y)
  {
  }

  lemma {:induction false} PowIsPow2(w: nat)
    ensures Pow(w) == Pow2(8 * w)
    decreases w
  {
    if w > 0 {
      PowIsPow2(w - 1);
      Pow2Adds(8 * (w - 1), 8);
    }
  }

  lemma QuotientOfSmall(x: int, p: int)
    requires p > 0
    ensures 0 <= x < p ==> x / p == 0
    ensures -p <= x < 0 ==> x / p == -1
  {
  }

  /** Shifting by the lane's width or more leaves zeros, or copies of the sign. */
  lemma WideShift(kind: Shift, x: nat, count: nat, w: Width)
    requires x < Pow(w) && count >= 8 * w
    ensures Digits(Shifted(kind, x, count, w), w) ==
      Digits(if kind == ArithmeticRight && Signed(x, w) < 0 then -1 else 0, w)
  {
    hide Digits, Pow, Pow2;
    var k := Pow2(count - 8 * w);
    PowIsPow2(w);
    Pow2Adds(count - 8 * w, 8 * w);
    TimesAtLeast(k, Pow(w));
    match kind
    case Left =>
      assert x * (k * Pow(w)) == 0 + (x * k) * Pow(w);
      SameDigits(0, x * k, w);
    case LogicalRight =>
      QuotientOfSmall(x, Pow2(count));
    case ArithmeticRight =>
      QuotientOfSmall(Signed(x, w), Pow2(count));
  }

  // ----- Byte shuffles

  type Vector = s: seq<byte> | |s| == 16 witness seq(16, _ => 0)

  function Shuffled(s: Vector, mask: Vector): Vector {
    seq(16, i requires 0 <= i < 16 => if mask[i] >= 128 then 0 else s[mask[i] % 16])
  }

  /** perform_pshufb_16: the high bit of a mask byte clears, its low four bits select. */
  method PerformPshufb16(dst: array<byte>, src: Vector, mask: Vector)
    requires dst.Length >= 16
    modifies dst
    ensures dst[..] == Shuffled(src, mask) + old(dst[16..])
    ensures forall i :: 0 <= i < 16 ==> dst[i] == if mask[i] >= 128 then 0 else src[mask[i] % 16]
  {
    for i := 0 to 16
      invariant dst[..i] == Shuffled(src, mask)[..i]
      invariant forall j :: 0 <= j < i ==> dst[j] == if mask[j] >= 128 then 0 else src[mask[j] % 16]
      invariant dst[16..] == old(dst[16..])
    {
      dst[i] := if mask[i] >= 0x80 then 0 else src[mask[i] % 0x10];
    }
    assert dst[..] == dst[..16] + dst[16..];
  }

  /** Two shuffles are one: the second mask rearranges the first, and clears where either clears. */
  lemma ShufflesCompose(s: Vector, first: Vector, second: Vector)
    ensures Shuffled(Shuffled(s, first), second)
         == Shuffled(s, seq(16, i requires 0 <= i < 16 => if second[i] >= 128 then 128 else first[second[i] % 16]))
  {
  }
}
