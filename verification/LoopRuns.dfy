/** The loop limiter over whole runs: the counters agree with the log of hook calls. */
module LoopRuns {
  import opened Basics
  import opened LoopLimiter
  import opened Explorer
  import opened Exploration
  import opened Runs

  /** The address holds a conditional branch that jumps backwards or to itself. */
  predicate IsBackward(cfg: Config, a: nat) {
    a in cfg.decoded && cfg.decoded[a].op1Addr <= a
  }

  /** For every execution of the branch at a that the log holds, whether tracked memory was dirty. */
  function Executions(cfg: Config, log: seq<Event>, a: nat): seq<bool> {
    if log == [] then []
    else
      var ev := log[|log| - 1];
      Executions(cfg, log[..|log| - 1], a) + if ev.address == a && OnBranchPath(cfg, ev) then [ev.dirty] else []
  }

  /** The counter of every backward branch is the one its executions lead to. */
  ghost predicate LoopsMatch(cfg: Config, log: seq<Event>, s: State)
    requires cfg.Valid() && cfg.limit > 0
  {
    forall a :: IsBackward(cfg, a) ==>
      GetLoop(s, a) == After(None, a, cfg.decoded[a].op1Addr, cfg.limit, Executions(cfg, log, a))
  }

  /** On the branch path the hook is the branch path; elsewhere it leaves the counters alone. */
  lemma HookIsBranchPath(cfg: Config, s: State, ev: Event)
    requires cfg.Valid()
    ensures if OnBranchPath(cfg, ev) then Hook(cfg, s, ev) == BranchPath(cfg, s, ev, cfg.decoded[ev.address])
            else Hook(cfg, s, ev).state.loops == s.loops
  {
    hide BranchPath, WithFlags;
  }

  lemma BranchPathCounts(cfg: Config, s: State, ev: Event, insn: Insn, a: nat)
    requires cfg.Valid() && cfg.limit > 0 && insn.op1Addr <= ev.address
    ensures var o := BranchPath(cfg, s, ev, insn);
            var r := Execute(GetLoop(s, ev.address), ev.address, insn.op1Addr, cfg.limit, ev.dirty);
            GetLoop(o.state, a) == (if ev.address == a then r.0 else GetLoop(s, a))
            && o.cpu == if r.1 then ev.cpu.(rip := ev.Fallthrough()) else ev.cpu
  {
    hide Execute;
  }

  lemma BranchPathElsewhere(cfg: Config, s: State, ev: Event, insn: Insn, a: nat)
    requires cfg.Valid() && a != ev.address
    ensures GetLoop(BranchPath(cfg, s, ev, insn).state, a) == GetLoop(s, a)
  {
    hide Execute, WithFlags;
  }

  /** A hook call touches no counter but that of its own address. */
  lemma HookTouchesOwnLoop(cfg: Config, s: State, ev: Event, a: nat)
    requires cfg.Valid() && cfg.limit > 0 && IsBackward(cfg, a)
    ensures GetLoop(Hook(cfg, s, ev).state, a)
         == if ev.address == a && OnBranchPath(cfg, ev)
            then Execute(GetLoop(s, a), a, cfg.decoded[a].op1Addr, cfg.limit, ev.dirty).0
            else GetLoop(s, a)
  {
    HookIsBranchPath(cfg, s, ev);
    if OnBranchPath(cfg, ev) {
      hide Hook, BranchPath, Execute, GetLoop, OnBranchPath;
      var insn := cfg.decoded[ev.address];
      if ev.address == a {
        BranchPathCounts(cfg, s, ev, insn, a);
      } else {
        BranchPathElsewhere(cfg, s, ev, insn, a);
      }
    } else {
      hide Hook, OnBranchPath;
    }
  }

  lemma ExecutionsGrow(cfg: Config, log: seq<Event>, ev: Event, a: nat)
    ensures Executions(cfg, log + [ev], a)
         == Executions(cfg, log, a) + if ev.address == a && OnBranchPath(cfg, ev) then [ev.dirty] else []
  {
    assert (log + [ev])[..|log + [ev]| - 1] == log;
  }

  lemma AfterGrows(a: nat, taken: nat, limit: nat, dirt: seq<bool>, dirty: bool)
    requires taken <= a && 0 < limit <= U64_MAX
    ensures After(None, a, taken, limit, dirt + [dirty]) == Execute(After(None, a, taken, limit, dirt), a, taken, limit, dirty).0
    ensures Forced(None, a, taken, limit, dirt + [dirty], |dirt|) == Execute(After(None, a, taken, limit, dirt), a, taken, limit, dirty).1
  {
    assert (dirt + [dirty])[..|dirt|] == dirt;
  }

  lemma LoopsMatchHook(cfg: Config, log: seq<Event>, s: State, ev: Event)
    requires cfg.Valid() && cfg.limit > 0 && LoopsMatch(cfg, log, s)
    ensures LoopsMatch(cfg, log + [ev], Hook(cfg, s, ev).state)
  {
    forall a | IsBackward(cfg, a)
      ensures GetLoop(Hook(cfg, s, ev).state, a)
           == After(None, a, cfg.decoded[a].op1Addr, cfg.limit, Executions(cfg, log + [ev], a))
    {
      hide Hook, Execute, After, OnBranchPath, Executions, GetLoop;
      HookTouchesOwnLoop(cfg, s, ev, a);
      ExecutionsGrow(cfg, log, ev, a);
      AfterGrows(a, cfg.decoded[a].op1Addr, cfg.limit, Executions(cfg, log, a), ev.dirty);
      assert Executions(cfg, log, a) + [] == Executions(cfg, log, a);
    }
  }

  lemma {:induction false} LoopsMatchAll(cfg: Config, log: seq<Event>, s: State, events: seq<Event>)
    requires cfg.Valid() && cfg.limit > 0 && LoopsMatch(cfg, log, s)
    ensures LoopsMatch(cfg, log + events, HookAll(cfg, s, events))
    decreases |events|
  {
    hide Hook, LoopsMatch;
    if events == [] {
      assert log + events == log;
    } else {
      var n := |events| - 1;
      LoopsMatchAll(cfg, log, s, events[..n]);
      LoopsMatchHook(cfg, log + events[..n], HookAll(cfg, s, events[..n]), events[n]);
      assert log + events[..n] + [events[n]] == log + events;
    }
  }

  /** At every point of every run the counters agree with the log. */
  lemma RunLoopsMatch(cfg: Config, limits: Limits, script: nat -> Slice, trace: seq<Progress>, k: nat, n: nat)
    requires cfg.Valid() && cfg.limit > 0 && IsRun(cfg, limits, script, trace) && k < |trace|
    requires n <= |Events(limits, trace[k], script(k))|
    ensures LoopsMatch(cfg, trace[k].log + Events(limits, trace[k], script(k))[..n],
                       HookAll(cfg, trace[k].state, Events(limits, trace[k], script(k))[..n]))
  {
    hide LoopsMatch;
    RunLoopsMatchAt(cfg, limits, script, trace, k);
    LoopsMatchAll(cfg, trace[k].log, trace[k].state, Events(limits, trace[k], script(k))[..n]);
  }

  lemma {:induction false} RunLoopsMatchAt(cfg: Config, limits: Limits, script: nat -> Slice, trace: seq<Progress>, k: nat)
    requires cfg.Valid() && cfg.limit > 0 && IsRun(cfg, limits, script, trace) && k < |trace|
    ensures LoopsMatch(cfg, trace[k].log, trace[k].state)
    decreases k
  {
    if k > 0 {
      RunLoopsMatchAt(cfg, limits, script, trace, k - 1);
      assert Runs.Follows(cfg, limits, script(k - 1), trace[k - 1], trace[k]);
      LoopsMatchAll(cfg, trace[k - 1].log, trace[k - 1].state, Events(limits, trace[k - 1], script(k - 1)));
    }
  }

  lemma HookOnBackward(cfg: Config, s: State, ev: Event)
    requires cfg.Valid() && cfg.limit > 0 && OnBranchPath(cfg, ev) && IsBackward(cfg, ev.address)
    ensures Hook(cfg, s, ev).cpu
         == if Execute(GetLoop(s, ev.address), ev.address, cfg.decoded[ev.address].op1Addr, cfg.limit, ev.dirty).1
            then ev.cpu.(rip := ev.Fallthrough()) else ev.cpu
  {
    HookIsBranchPath(cfg, s, ev);
    hide Hook, BranchPath, Execute, GetLoop, OnBranchPath;
    BranchPathCounts(cfg, s, ev, cfg.decoded[ev.address], ev.address);
  }

  /**
   * Where the counters agree with the log, the hook forces the branch to fall through exactly when the limiter's
   * own history of that branch says so, and otherwise leaves the registers alone.
   */
  lemma HookForcesExactly(cfg: Config, log: seq<Event>, s: State, ev: Event)
    requires cfg.Valid() && cfg.limit > 0 && LoopsMatch(cfg, log, s)
    requires OnBranchPath(cfg, ev) && IsBackward(cfg, ev.address)
    ensures var dirt := Executions(cfg, log + [ev], ev.address);
            var n := |Executions(cfg, log, ev.address)|;
            |dirt| == n + 1
            && Hook(cfg, s, ev).cpu
            == if Forced(None, ev.address, cfg.decoded[ev.address].op1Addr, cfg.limit, dirt, n)
               then ev.cpu.(rip := ev.Fallthrough()) else ev.cpu
  {
    hide Hook, Execute, After, OnBranchPath, Executions, GetLoop, Forced;
    HookOnBackward(cfg, s, ev);
    ExecutionsGrow(cfg, log, ev, ev.address);
    AfterGrows(ev.address, cfg.decoded[ev.address].op1Addr, cfg.limit, Executions(cfg, log, ev.address), ev.dirty);
  }

  // ----- The loop bound over whole runs

  /** The hook calls of the run so far, those of its last slice included. */
  ghost function WholeLog(limits: Limits, script: nat -> Slice, trace: seq<Progress>): seq<Event>
    requires trace != []
  {
    var n := |trace| - 1;
    trace[n].log + Events(limits, trace[n], script(n))
  }

  /** The state in which hook call number p of the run was made. */
  ghost function StateBefore(cfg: Config, limits: Limits, script: nat -> Slice, trace: seq<Progress>, p: nat): State
    requires cfg.Valid() && IsRun(cfg, limits, script, trace) && p < |WholeLog(limits, script, trace)|
    decreases |trace|
  {
    var n := |trace| - 1;
    if p >= |trace[n].log| then HookAll(cfg, trace[n].state, Events(limits, trace[n], script(n))[..p - |trace[n].log|])
    else
      assert Runs.Follows(cfg, limits, script(n - 1), trace[n - 1], trace[n]);
      assert IsRun(cfg, limits, script, trace[..n]);
      StateBefore(cfg, limits, script, trace[..n], p)
  }

  /** Hook call p of the run is an execution of the branch at a. */
  ghost predicate ExecutesAt(cfg: Config, log: seq<Event>, a: nat, p: nat) {
    p < |log| && log[p].address == a && OnBranchPath(cfg, log[p])
  }

  /** How many executions of the branch at a come before hook call p. */
  ghost function Number(cfg: Config, log: seq<Event>, a: nat, p: nat): nat
    requires p <= |log|
  {
    |Executions(cfg, log[..p], a)|
  }

  /** Hook call p of the run makes the branch fall through: it moves the instruction pointer there and nothing else. */
  ghost predicate FallsThrough(cfg: Config, limits: Limits, script: nat -> Slice, trace: seq<Progress>, p: nat)
    requires cfg.Valid() && IsRun(cfg, limits, script, trace) && p < |WholeLog(limits, script, trace)|
  {
    var ev := WholeLog(limits, script, trace)[p];
    Hook(cfg, StateBefore(cfg, limits, script, trace, p), ev).cpu == ev.cpu.(rip := ev.Fallthrough())
  }

  lemma {:induction false} LoopsMatchBefore(cfg: Config, limits: Limits, script: nat -> Slice, trace: seq<Progress>, p: nat)
    requires cfg.Valid() && cfg.limit > 0 && IsRun(cfg, limits, script, trace) && p < |WholeLog(limits, script, trace)|
    ensures LoopsMatch(cfg, WholeLog(limits, script, trace)[..p], StateBefore(cfg, limits, script, trace, p))
    decreases |trace|
  {
    hide LoopsMatch, HookAll;
    var n := |trace| - 1;
    var log := WholeLog(limits, script, trace);
    if p >= |trace[n].log| {
      var m := p - |trace[n].log|;
      RunLoopsMatch(cfg, limits, script, trace, n, m);
      assert log[..p] == trace[n].log + Events(limits, trace[n], script(n))[..m];
    } else {
      assert Runs.Follows(cfg, limits, script(n - 1), trace[n - 1], trace[n]);
      assert IsRun(cfg, limits, script, trace[..n]);
      LoopsMatchBefore(cfg, limits, script, trace[..n], p);
      assert log[..p] == WholeLog(limits, script, trace[..n])[..p];
    }
  }

  lemma {:induction false} ExecutionsPrefix(cfg: Config, log: seq<Event>, a: nat, p: nat)
    requires p <= |log|
    ensures Executions(cfg, log[..p], a) <= Executions(cfg, log, a)
    decreases |log|
  {
    if p < |log| {
      var n := |log| - 1;
      ExecutionsPrefix(cfg, log[..n], a, p);
      assert log[..n][..p] == log[..p];
    } else {
      assert log[..p] == log;
    }
  }

  lemma {:induction false} ExecutionNumbered(cfg: Config, log: seq<Event>, a: nat, i: nat) returns (p: nat)
    requires i < |Executions(cfg, log, a)|
    ensures ExecutesAt(cfg, log, a, p) && Number(cfg, log, a, p) == i
    decreases |log|
  {
    hide OnBranchPath;
    var n := |log| - 1;
    if i < |Executions(cfg, log[..n], a)| {
      p := ExecutionNumbered(cfg, log[..n], a, i);
      assert log[..n][..p] == log[..p];
    } else {
      p := n;
    }
  }

  /** An execution falls through exactly if the limiter's history of the whole run says that it is forced. */
  lemma FallsThroughIff(cfg: Config, limits: Limits, script: nat -> Slice, trace: seq<Progress>, a: nat, p: nat)
    requires cfg.Valid() && cfg.limit > 0 && IsRun(cfg, limits, script, trace) && IsBackward(cfg, a)
    requires ExecutesAt(cfg, WholeLog(limits, script, trace), a, p)
    ensures var log := WholeLog(limits, script, trace);
            var dirt, i := Executions(cfg, log, a), Number(cfg, log, a, p);
            && i < |dirt|
            && (Forced(None, a, cfg.decoded[a].op1Addr, cfg.limit, dirt, i) ==> FallsThrough(cfg, limits, script, trace, p))
            && (FallsThrough(cfg, limits, script, trace, p) && log[p].cpu.rip != log[p].Fallthrough() ==>
                  Forced(None, a, cfg.decoded[a].op1Addr, cfg.limit, dirt, i))
  {
    hide Hook, StateBefore, LoopsMatch, Executions, OnBranchPath, Forced, WholeLog;
    var log := WholeLog(limits, script, trace);
    LoopsMatchBefore(cfg, limits, script, trace, p);
    HookForcesExactly(cfg, log[..p], StateBefore(cfg, limits, script, trace, p), log[p]);
    assert log[..p] + [log[p]] == log[..p + 1];
    ExecutionsPrefix(cfg, log, a, p + 1);
    ForcedInPrefix(a, cfg.decoded[a].op1Addr, cfg.limit, Executions(cfg, log[..p + 1], a), Executions(cfg, log, a),
                   Number(cfg, log, a, p));
  }

  /**
   * In every run, of max(limit, 2000) + span / 4 consecutive executions of a backward branch at least one falls
   * through, and of limit + span / 4 if nothing is dirty meanwhile.
   */
  lemma EveryLoopFallsThrough(cfg: Config, limits: Limits, script: nat -> Slice, trace: seq<Progress>, a: nat,
                              from: nat, window: nat, dirty: bool)
    requires cfg.Valid() && cfg.limit > 0 && IsRun(cfg, limits, script, trace) && IsBackward(cfg, a)
    requires window >= 0xFFFF_FFFF_FFFF_FFFF
             || window >= (if dirty && cfg.limit < 2000 then 2000 else cfg.limit) + (a - cfg.decoded[a].op1Addr) / 4
    requires var dirt := Executions(cfg, WholeLog(limits, script, trace), a);
             from + window <= |dirt| && (dirty || forall i :: from <= i < from + window ==> !dirt[i])
    ensures var log := WholeLog(limits, script, trace);
            exists p :: ExecutesAt(cfg, log, a, p) && from <= Number(cfg, log, a, p) < from + window
                        && FallsThrough(cfg, limits, script, trace, p)
  {
    hide StateBefore, FallsThrough, Executions, ExecutesAt, Forced, WholeLog;
    var log := WholeLog(limits, script, trace);
    var dirt, taken := Executions(cfg, log, a), cfg.decoded[a].op1Addr;
    EveryStretchHasForcedExit(a, taken, cfg.limit, dirt, from, window, dirty);
    var i :| from <= i < from + window && Forced(None, a, taken, cfg.limit, dirt, i);
    var p := ExecutionNumbered(cfg, log, a, i);
    FallsThroughIff(cfg, limits, script, trace, a, p);
  }

  /**
   * In every run, a backward branch that is made to fall through has been executed limit + span / 4 times since it
   * last was, or since the run started, and max(limit, 2000) + span / 4 times if tracked memory is dirty.
   */
  lemma NoLoopIsCutShort(cfg: Config, limits: Limits, script: nat -> Slice, trace: seq<Progress>, a: nat, q: nat, least: nat)
    requires cfg.Valid() && cfg.limit > 0 && IsRun(cfg, limits, script, trace) && IsBackward(cfg, a)
    requires var log := WholeLog(limits, script, trace);
             ExecutesAt(cfg, log, a, q) && FallsThrough(cfg, limits, script, trace, q)
             && log[q].cpu.rip != log[q].Fallthrough()
             && least == (if log[q].dirty && cfg.limit < 2000 then 2000 else cfg.limit) + (a - cfg.decoded[a].op1Addr) / 4
    ensures var log := WholeLog(limits, script, trace);
            && (Number(cfg, log, a, q) + 1 >= least || Number(cfg, log, a, q) + 1 >= 0xFFFF_FFFF_FFFF_FFFF)
            && forall p: nat :: p < q && ExecutesAt(cfg, log, a, p) && FallsThrough(cfg, limits, script, trace, p)
                                && log[p].cpu.rip != log[p].Fallthrough()
                                ==> var n := Number(cfg, log, a, q) - Number(cfg, log, a, p);
                                    n >= least || n >= 0xFFFF_FFFF_FFFF_FFFF
  {
    hide StateBefore, FallsThrough, Executions, OnBranchPath, Forced, WholeLog;
    var log := WholeLog(limits, script, trace);
    var dirt, taken := Executions(cfg, log, a), cfg.decoded[a].op1Addr;
    FallsThroughIff(cfg, limits, script, trace, a, q);
    DirtOfExecution(cfg, log, a, q);
    ExitsAreFarApart(a, taken, cfg.limit, dirt, 0, Number(cfg, log, a, q));
    forall p: nat | p < q && ExecutesAt(cfg, log, a, p) && FallsThrough(cfg, limits, script, trace, p)
                    && log[p].cpu.rip != log[p].Fallthrough()
      ensures var n := Number(cfg, log, a, q) - Number(cfg, log, a, p); n >= least || n >= 0xFFFF_FFFF_FFFF_FFFF
    {
      FallsThroughIff(cfg, limits, script, trace, a, p);
      NumbersGrow(cfg, log, a, p, q);
      ExitsAreFarApart(a, taken, cfg.limit, dirt, Number(cfg, log, a, p) + 1, Number(cfg, log, a, q));
    }
  }

  lemma DirtOfExecution(cfg: Config, log: seq<Event>, a: nat, q: nat)
    requires ExecutesAt(cfg, log, a, q)
    ensures Number(cfg, log, a, q) < |Executions(cfg, log, a)|
    ensures Executions(cfg, log, a)[Number(cfg, log, a, q)] == log[q].dirty
  {
    hide Executions, OnBranchPath;
    assert log[..q] + [log[q]] == log[..q + 1];
    ExecutionsGrow(cfg, log[..q], log[q], a);
    ExecutionsPrefix(cfg, log, a, q + 1);
  }

  lemma NumbersGrow(cfg: Config, log: seq<Event>, a: nat, p: nat, q: nat)
    requires p < q <= |log| && ExecutesAt(cfg, log, a, p)
    ensures Number(cfg, log, a, p) < Number(cfg, log, a, q)
  {
    hide Executions, OnBranchPath;
    assert log[..p] + [log[p]] == log[..p + 1];
    ExecutionsGrow(cfg, log[..p], log[p], a);
    ExecutionsPrefix(cfg, log[..q], a, p + 1);
    assert log[..q][..p + 1] == log[..p + 1];
  }
}
