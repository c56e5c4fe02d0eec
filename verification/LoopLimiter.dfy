/** The iteration limit on backward branches (emulator.cpp, hook_code). */
module LoopLimiter {
  import opened Basics

  const U64_MAX: nat := 0xFFFF_FFFF_FFFF_FFFF

  /** The counter kept for one branch address; what is stored never reaches U64_MAX, so ++hits cannot wrap. */
  datatype Counter = Counter(hits: nat, lastTarget: nat)

  type LoopState = c: Counter | c.hits < U64_MAX witness Counter(0, 0)

  /** The number of executions at which the branch is forced to fall through. */
  function Allowance(limit: nat, dirty: bool, span: nat): (a: nat)
    requires 0 < limit <= U64_MAX
    ensures 0 < a <= U64_MAX
  {
    var granted := if dirty && limit < 2000 then 2000 else limit;
    if span / 4 > U64_MAX - granted then U64_MAX else granted + span / 4
  }

  /** One execution of a backward branch: the entry it leaves, and whether it is forced to fall through. */
  function Execute(entry: Option<LoopState>, address: nat, taken: nat, limit: nat, dirty: bool): (r: (Option<LoopState>, bool))
    requires taken <= address && 0 < limit <= U64_MAX
  {
    var before := if entry.Some? && entry.value.lastTarget == taken then entry.value.hits else 0;
    if before + 1 >= Allowance(limit, dirty, address - taken)
    then (None, true)
    else (Some(Counter(before + 1, taken)), false)
  }

  /** The entry after a sequence of executions, given whether tracked memory was dirty at each. */
  function After(entry: Option<LoopState>, address: nat, taken: nat, limit: nat, dirt: seq<bool>): Option<LoopState>
    requires taken <= address && 0 < limit <= U64_MAX
    decreases |dirt|
  {
    if dirt == [] then entry
    else Execute(After(entry, address, taken, limit, dirt[..|dirt| - 1]), address, taken, limit, dirt[|dirt| - 1]).0
  }

  /** Execution number i of the sequence is forced to fall through. */
  predicate Forced(entry: Option<LoopState>, address: nat, taken: nat, limit: nat, dirt: seq<bool>, i: nat)
    requires taken <= address && 0 < limit <= U64_MAX && i < |dirt|
  {
    Execute(After(entry, address, taken, limit, dirt[..i]), address, taken, limit, dirt[i]).1
  }

  function Hits(entry: Option<LoopState>, taken: nat): nat {
    if entry.Some? && entry.value.lastTarget == taken then entry.value.hits else 0
  }

  /** Executions that force nothing are all counted. */
  lemma {:induction false} CountsUp(entry: Option<LoopState>, address: nat, taken: nat, limit: nat, dirt: seq<bool>, n: nat)
    requires taken <= address && 0 < limit <= U64_MAX && n <= |dirt|
    requires forall i :: 0 <= i < n ==> !Forced(entry, address, taken, limit, dirt, i)
    ensures Hits(After(entry, address, taken, limit, dirt[..n]), taken) == Hits(entry, taken) + n
    decreases n
  {
    if n > 0 {
      CountsUp(entry, address, taken, limit, dirt, n - 1);
      assert !Forced(entry, address, taken, limit, dirt, n - 1);
      assert dirt[..n][..n - 1] == dirt[..n - 1];
    }
  }

  /** Reaching the allowance, in numbers. */
  lemma AllowanceReached(limit: nat, dirty: bool, span: nat, n: nat)
    requires 0 < limit <= U64_MAX
    ensures n >= Allowance(limit, dirty, span)
        <==> n >= 0xFFFF_FFFF_FFFF_FFFF || n >= (if dirty && limit < 2000 then 2000 else limit) + span / 4
  {
  }

  /** Whatever happened before, a long enough window of executions contains a forced exit. */
  lemma WindowHasForcedExit(entry: Option<LoopState>, address: nat, taken: nat, limit: nat, dirt: seq<bool>)
    requires taken <= address && 0 < limit <= U64_MAX
    requires |dirt| >= 0xFFFF_FFFF_FFFF_FFFF
             || |dirt| >= (if limit < 2000 then 2000 else limit) + (address - taken) / 4
    ensures exists i :: 0 <= i < |dirt| && Forced(entry, address, taken, limit, dirt, i)
  {
    hide Allowance, After, Execute, Forced, Hits;
    if forall i :: 0 <= i < |dirt| ==> !Forced(entry, address, taken, limit, dirt, i) {
      var n := |dirt| - 1;
      CountsUp(entry, address, taken, limit, dirt, n);
      ForcedMeans(entry, address, taken, limit, dirt, n);
      AllowanceReached(limit, dirt[n], address - taken, Hits(After(entry, address, taken, limit, dirt[..n]), taken) + 1);
    }
  }

  /** While nothing is dirty the window is shorter. */
  lemma CleanWindowHasForcedExit(entry: Option<LoopState>, address: nat, taken: nat, limit: nat, dirt: seq<bool>)
    requires taken <= address && 0 < limit <= U64_MAX
    requires |dirt| >= 0xFFFF_FFFF_FFFF_FFFF || |dirt| >= limit + (address - taken) / 4
    requires forall i :: 0 <= i < |dirt| ==> !dirt[i]
    ensures exists i :: 0 <= i < |dirt| && Forced(entry, address, taken, limit, dirt, i)
  {
    hide Allowance, After, Execute, Forced, Hits;
    if forall i :: 0 <= i < |dirt| ==> !Forced(entry, address, taken, limit, dirt, i) {
      var n := |dirt| - 1;
      CountsUp(entry, address, taken, limit, dirt, n);
      ForcedMeans(entry, address, taken, limit, dirt, n);
      AllowanceReached(limit, false, address - taken, Hits(After(entry, address, taken, limit, dirt[..n]), taken) + 1);
    }
  }

  lemma {:induction false} AfterSplit(entry: Option<LoopState>, address: nat, taken: nat, limit: nat, a: seq<bool>, b: seq<bool>)
    requires taken <= address && 0 < limit <= U64_MAX
    ensures After(entry, address, taken, limit, a + b)
         == After(After(entry, address, taken, limit, a), address, taken, limit, b)
    decreases |b|
  {
    if b == [] {
      assert a + b == a;
    } else {
      var init := b[..|b| - 1];
      AfterSplit(entry, address, taken, limit, a, init);
      assert (a + b)[..|a + b| - 1] == a + init;
    }
  }

  /** A forced exit erases the entry, so counting starts again from nothing. */
  lemma ForcedAfterExit(address: nat, taken: nat, limit: nat, dirt: seq<bool>, from: nat, j: nat)
    requires taken <= address && 0 < limit <= U64_MAX && from + j < |dirt|
    requires from == 0 || Forced(None, address, taken, limit, dirt, from - 1)
    ensures Forced(None, address, taken, limit, dirt[from..], j) == Forced(None, address, taken, limit, dirt, from + j)
  {
    var rest := dirt[from..];
    if from > 0 {
      assert dirt[..from][..from - 1] == dirt[..from - 1];
    }
    assert dirt[..from + j] == dirt[..from] + rest[..j];
    AfterSplit(None, address, taken, limit, dirt[..from], rest[..j]);
  }

  lemma ForcedMeans(entry: Option<LoopState>, address: nat, taken: nat, limit: nat, dirt: seq<bool>, i: nat)
    requires taken <= address && 0 < limit <= U64_MAX && i < |dirt|
    ensures Forced(entry, address, taken, limit, dirt, i)
        <==> Hits(After(entry, address, taken, limit, dirt[..i]), taken) + 1 >= Allowance(limit, dirt[i], address - taken)
  {
    hide After, Allowance;
  }

  /**
   * Exactly when execution i is forced, counting from the start or from right after a forced exit: when it is number
   * limit + span / 4, or max(limit, 2000) + span / 4 if tracked memory is dirty then, or 2^64 - 1.
   */
  lemma ForcedExactly(address: nat, taken: nat, limit: nat, dirt: seq<bool>, from: nat, i: nat)
    requires taken <= address && 0 < limit <= U64_MAX && from <= i < |dirt|
    requires from == 0 || Forced(None, address, taken, limit, dirt, from - 1)
    requires forall j :: from <= j < i ==> !Forced(None, address, taken, limit, dirt, j)
    ensures var n := i + 1 - from;
            Forced(None, address, taken, limit, dirt, i)
            <==> n >= 0xFFFF_FFFF_FFFF_FFFF
                 || n >= (if dirt[i] && limit < 2000 then 2000 else limit) + (address - taken) / 4
  {
    hide Execute, After, Forced, Allowance;
    var rest := dirt[from..];
    forall j | 0 <= j <= i - from
      ensures Forced(None, address, taken, limit, rest, j) == Forced(None, address, taken, limit, dirt, from + j)
    {
      ForcedAfterExit(address, taken, limit, dirt, from, j);
    }
    CountsUp(None, address, taken, limit, rest, i - from);
    ForcedMeans(None, address, taken, limit, rest, i - from);
    AllowanceReached(limit, dirt[i], address - taken, i + 1 - from);
  }

  /**
   * Between two forced exits, and before the first, there are at least limit + span / 4 executions, and at least
   * max(limit, 2000) + span / 4 if the exit is forced while tracked memory is dirty.
   */
  lemma ExitsAreFarApart(address: nat, taken: nat, limit: nat, dirt: seq<bool>, from: nat, i: nat)
    requires taken <= address && 0 < limit <= U64_MAX && from <= i < |dirt|
    requires from == 0 || Forced(None, address, taken, limit, dirt, from - 1)
    requires Forced(None, address, taken, limit, dirt, i)
    ensures var n := i + 1 - from;
            n >= 0xFFFF_FFFF_FFFF_FFFF
            || n >= (if dirt[i] && limit < 2000 then 2000 else limit) + (address - taken) / 4
    decreases i - from
  {
    hide Execute, After, Forced, Allowance;
    if k :| from <= k < i && Forced(None, address, taken, limit, dirt, k) {
      ExitsAreFarApart(address, taken, limit, dirt, k + 1, i);
    } else {
      ForcedExactly(address, taken, limit, dirt, from, i);
    }
  }

  /** What is forced in a stretch of the history depends on the entry that the earlier part leaves. */
  lemma ForcedInStretch(address: nat, taken: nat, limit: nat, dirt: seq<bool>, from: nat, to: nat, j: nat)
    requires taken <= address && 0 < limit <= U64_MAX && from + j < to <= |dirt|
    ensures Forced(After(None, address, taken, limit, dirt[..from]), address, taken, limit, dirt[from..to], j)
         == Forced(None, address, taken, limit, dirt, from + j)
  {
    hide Execute, After;
    var stretch := dirt[from..to];
    assert dirt[..from + j] == dirt[..from] + stretch[..j];
    AfterSplit(None, address, taken, limit, dirt[..from], stretch[..j]);
  }

  /**
   * Anywhere in the history of the branch, a stretch of max(limit, 2000) + span / 4 executions contains a forced
   * exit, and so does one of limit + span / 4 during which nothing is dirty.
   */
  lemma EveryStretchHasForcedExit(address: nat, taken: nat, limit: nat, dirt: seq<bool>, from: nat, window: nat, dirty: bool)
    requires taken <= address && 0 < limit <= U64_MAX && from + window <= |dirt|
    requires window >= 0xFFFF_FFFF_FFFF_FFFF
             || window >= (if dirty && limit < 2000 then 2000 else limit) + (address - taken) / 4
    requires dirty || forall i :: from <= i < from + window ==> !dirt[i]
    ensures exists i :: from <= i < from + window && Forced(None, address, taken, limit, dirt, i)
  {
    hide Execute, After, Forced, Allowance;
    var to := from + window;
    var entry := After(None, address, taken, limit, dirt[..from]);
    if dirty {
      WindowHasForcedExit(entry, address, taken, limit, dirt[from..to]);
    } else {
      CleanWindowHasForcedExit(entry, address, taken, limit, dirt[from..to]);
    }
    var j :| 0 <= j < to - from && Forced(entry, address, taken, limit, dirt[from..to], j);
    ForcedInStretch(address, taken, limit, dirt, from, to, j);
  }

  /** Whether execution i is forced depends on the executions up to it only. */
  lemma ForcedInPrefix(address: nat, taken: nat, limit: nat, dirt: seq<bool>, all: seq<bool>, i: nat)
    requires taken <= address && 0 < limit <= U64_MAX && i < |dirt| && dirt <= all
    ensures Forced(None, address, taken, limit, dirt, i) == Forced(None, address, taken, limit, all, i)
  {
    assert dirt[..i] == all[..i];
  }
}
