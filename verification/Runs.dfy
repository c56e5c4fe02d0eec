/** Whole runs as sequences of slices (emulator::run), against any engine behaviour. */
module Runs {
  import opened Basics
  import opened LoopLimiter
  import opened Explorer
  import opened Exploration

  /**
   * What the engine does between two decisions of the run loop: the stop flag seen before the slice, the hook
   * calls it makes, how far other threads advance the shared counter meanwhile, the time it takes, and whether
   * the next context can be restored.
   */
  datatype Slice = Slice(stop: bool, events: seq<Event>, others: nat, elapsedUs: nat, restoreOk: bool)

  datatype Reason = StopRequested | BudgetSpent | NothingPending | RestoreFailed

  /** The limits of a run; 0 means none. */
  datatype Limits = Limits(maxTimeMs: nat, maxInstr: nat)

  /** Where a run stands before a slice: everything so far, and what is left of the two budgets. */
  datatype Progress = Progress(state: State, log: seq<Event>, started: seq<Branch>, left: nat, remainingUs: nat)

  function Start(limits: Limits): Progress {
    Progress(INITIAL, [], [], limits.maxInstr, limits.maxTimeMs * 1000 % 0x1_0000_0000_0000_0000)
  }

  /** The engine stops after the requested number of instructions; a request of 0 means no limit. */
  function Bounded(events: seq<Event>, count: nat): (r: seq<Event>)
    ensures r <= events && |r| == if count != 0 && count < |events| then count else |events|
  {
    if count != 0 && |events| > count then events[..count] else events
  }

  /** The number of hook calls that advanced the instruction counter. */
  function Counted(cfg: Config, log: seq<Event>): nat {
    if log == [] then 0
    else Counted(cfg, log[..|log| - 1]) + if Seen(cfg, log[|log| - 1]).Some? then 1 else 0
  }

  function HookAll(cfg: Config, s: State, events: seq<Event>): State
    requires cfg.Valid()
    decreases |events|
  {
    if events == [] then s
    else Hook(cfg, HookAll(cfg, s, events[..|events| - 1]), events[|events| - 1]).state
  }

  /** What is left of a budget. */
  function Spend(left: nat, used: nat): nat {
    if used >= left then 0 else left - used
  }

  /** The hook calls of one slice. */
  function Events(limits: Limits, p: Progress, slice: Slice): seq<Event> {
    Bounded(slice.events, if limits.maxInstr != 0 then p.left else 0)
  }

  /** One slice, up to the point where the pending stack is looked at. */
  function Play(cfg: Config, limits: Limits, p: Progress, slice: Slice): Progress
    requires cfg.Valid()
  {
    var events := Events(limits, p, slice);
    Progress(HookAll(cfg, p.state, events), p.log + events, p.started,
             if limits.maxInstr != 0 then Spend(p.left, Counted(cfg, events) + slice.others) else p.left,
             if limits.maxTimeMs != 0 then Spend(p.remainingUs, slice.elapsedUs) else p.remainingUs)
  }

  /** Starting the branch on top of the stack. */
  function Take(p: Progress): Progress
    requires p.state.pending != []
  {
    var n := |p.state.pending| - 1;
    p.(state := p.state.(pending := p.state.pending[..n]), started := p.started + [p.state.pending[n]])
  }

  predicate OutOfBudget(limits: Limits, p: Progress) {
    (limits.maxTimeMs != 0 && p.remainingUs == 0) || (limits.maxInstr != 0 && p.left == 0)
  }

  /** The run plays this slice. */
  predicate Plays(limits: Limits, p: Progress, slice: Slice) {
    !slice.stop && !OutOfBudget(limits, p)
  }

  /** trace[k] is where the run stands before slice k. */
  ghost predicate IsRun(cfg: Config, limits: Limits, script: nat -> Slice, trace: seq<Progress>)
    requires cfg.Valid()
  {
    trace != [] && trace[0] == Start(limits)
    && forall k :: 0 <= k < |trace| - 1 ==> Follows(cfg, limits, script(k), trace[k], trace[k + 1])
  }

  ghost predicate Follows(cfg: Config, limits: Limits, slice: Slice, p: Progress, q: Progress)
    requires cfg.Valid()
  {
    Plays(limits, p, slice) && Play(cfg, limits, p, slice).state.pending != []
    && slice.restoreOk && q == Take(Play(cfg, limits, p, slice))
  }

  /** How a run that stands at p before its last slice ends, and where. */
  ghost predicate Ends(cfg: Config, limits: Limits, slice: Slice, p: Progress, reason: Reason, last: Progress)
    requires cfg.Valid()
  {
    match reason
    case StopRequested => slice.stop && last == p
    case BudgetSpent => !slice.stop && OutOfBudget(limits, p) && last == p
    case NothingPending =>
      Plays(limits, p, slice) && last == Play(cfg, limits, p, slice) && last.state.pending == []
    case RestoreFailed =>
      Plays(limits, p, slice) && !slice.restoreOk
      && Play(cfg, limits, p, slice).state.pending != [] && last == Take(Play(cfg, limits, p, slice))
  }

  // ----- What every slice keeps

  ghost predicate Sound(cfg: Config, limits: Limits, p: Progress) {
    Explored(cfg, p.log, p.started, p.state)
    && (limits.maxInstr != 0 ==> Counted(cfg, p.log) + p.left <= limits.maxInstr)
  }

  lemma {:induction false} HookAllKeeps(cfg: Config, log: seq<Event>, started: seq<Branch>, s: State, events: seq<Event>)
    requires cfg.Valid() && Explored(cfg, log, started, s)
    ensures Explored(cfg, log + events, started, HookAll(cfg, s, events))
    ensures Measure(cfg, HookAll(cfg, s, events)) <= Measure(cfg, s)
    decreases |events|
  {
    hide Explored, Measure, Hook;
    if events == [] {
      assert log + events == log;
    } else {
      var n := |events| - 1;
      var init := events[..n];
      HookAllKeeps(cfg, log, started, s, init);
      ExploredByHook(cfg, log + init, started, HookAll(cfg, s, init), events[n]);
      HookMeasure(cfg, HookAll(cfg, s, init), events[n]);
      assert log + init + [events[n]] == log + events;
    }
  }

  lemma {:induction false} CountedAdds(cfg: Config, a: seq<Event>, b: seq<Event>)
    ensures Counted(cfg, a + b) == Counted(cfg, a) + Counted(cfg, b)
    decreases |b|
  {
    if b == [] {
      assert a + b == a;
    } else {
      var init := b[..|b| - 1];
      CountedAdds(cfg, a, init);
      assert (a + b)[..|a + b| - 1] == a + init;
    }
  }

  lemma {:induction false} CountedAtMost(cfg: Config, log: seq<Event>)
    ensures Counted(cfg, log) <= |log|
    decreases |log|
  {
    if log != [] {
      CountedAtMost(cfg, log[..|log| - 1]);
    }
  }

  lemma SoundInitially(cfg: Config, limits: Limits)
    ensures Sound(cfg, limits, Start(limits))
  {
    ExploredInitially(cfg);
  }

  /** The budget holds although the delta is read from a counter that other threads advance. */
  lemma PlayKeepsSound(cfg: Config, limits: Limits, p: Progress, slice: Slice)
    requires cfg.Valid() && Sound(cfg, limits, p) && Plays(limits, p, slice)
    ensures Sound(cfg, limits, Play(cfg, limits, p, slice))
    ensures Measure(cfg, Play(cfg, limits, p, slice).state) <= Measure(cfg, p.state)
  {
    hide Explored, Measure, HookAll, Counted;
    var events := Events(limits, p, slice);
    HookAllKeeps(cfg, p.log, p.started, p.state, events);
    CountedAdds(cfg, p.log, events);
    CountedAtMost(cfg, events);
  }

  lemma TakeKeepsSound(cfg: Config, limits: Limits, p: Progress)
    requires Sound(cfg, limits, p) && p.state.pending != []
    ensures Sound(cfg, limits, Take(p))
    ensures Measure(cfg, Take(p).state) == Measure(cfg, p.state) - 1
  {
    hide Explored, Measure, Counted;
    ExploredByTake(cfg, p.log, p.started, p.state);
    TakeMeasure(cfg, p.state);
  }

  // ----- Theorems about every run

  lemma {:induction false} RunIsSound(cfg: Config, limits: Limits, script: nat -> Slice, trace: seq<Progress>, k: nat)
    requires cfg.Valid() && IsRun(cfg, limits, script, trace) && k < |trace|
    ensures Sound(cfg, limits, trace[k])
    ensures |trace[k].started| == k
    decreases k
  {
    hide Sound, Play;
    if k == 0 {
      SoundInitially(cfg, limits);
    } else {
      RunIsSound(cfg, limits, script, trace, k - 1);
      assert Follows(cfg, limits, script(k - 1), trace[k - 1], trace[k]);
      PlayKeepsSound(cfg, limits, trace[k - 1], script(k - 1));
      PlayStarted(cfg, limits, trace[k - 1], script(k - 1));
      TakeKeepsSound(cfg, limits, Play(cfg, limits, trace[k - 1], script(k - 1)));
    }
  }

  lemma PlayStarted(cfg: Config, limits: Limits, p: Progress, slice: Slice)
    requires cfg.Valid()
    ensures Play(cfg, limits, p, slice).started == p.started
  {
  }

  lemma EndIsSound(cfg: Config, limits: Limits, script: nat -> Slice, trace: seq<Progress>, reason: Reason, last: Progress)
    requires cfg.Valid() && IsRun(cfg, limits, script, trace)
    requires Ends(cfg, limits, script(|trace| - 1), trace[|trace| - 1], reason, last)
    ensures Sound(cfg, limits, last)
  {
    hide Sound, Play;
    var n := |trace| - 1;
    RunIsSound(cfg, limits, script, trace, n);
    if reason.NothingPending? || reason.RestoreFailed? {
      PlayKeepsSound(cfg, limits, trace[n], script(n));
      if reason.RestoreFailed? {
        TakeKeepsSound(cfg, limits, Play(cfg, limits, trace[n], script(n)));
      }
    }
  }

  /** No run plays more than 1 + |decoded| * |image| slices, and no key is started twice. */
  lemma RunIsBounded(cfg: Config, limits: Limits, script: nat -> Slice, trace: seq<Progress>)
    requires cfg.Valid() && IsRun(cfg, limits, script, trace)
    ensures |trace| <= 1 + |cfg.decoded.Keys| * ImageSize(cfg)
    ensures Distinct(trace[|trace| - 1].started)
  {
    hide Attempts, Saved;
    var n := |trace| - 1;
    RunIsSound(cfg, limits, script, trace, n);
    PushesAreBounded(cfg, trace[n].log, trace[n].started, trace[n].state);
  }

  /** The decoded instructions one run executes never exceed its instruction limit. */
  lemma RunStaysInBudget(cfg: Config, limits: Limits, script: nat -> Slice, trace: seq<Progress>, reason: Reason, last: Progress)
    requires cfg.Valid() && IsRun(cfg, limits, script, trace) && limits.maxInstr != 0
    requires Ends(cfg, limits, script(|trace| - 1), trace[|trace| - 1], reason, last)
    ensures Counted(cfg, last.log) <= limits.maxInstr
  {
    EndIsSound(cfg, limits, script, trace, reason, last);
  }

  /**
   * A run that ends with nothing pending has started a slice at every target inside the image that one of its hook
   * calls tried to schedule, with the registers of the first such call, exactly if the snapshot of that call succeeded.
   */
  lemma RunCovers(cfg: Config, limits: Limits, script: nat -> Slice, trace: seq<Progress>, last: Progress, i: nat, key: Key)
    requires cfg.Valid() && IsRun(cfg, limits, script, trace)
    requires Ends(cfg, limits, script(|trace| - 1), trace[|trace| - 1], NothingPending, last)
    requires i < |last.log| && ScheduledKey(cfg, last.log[i]) == Some(key) && cfg.Inside(key.target)
    ensures exists j :: 0 <= j <= i && IsFirstAttempt(cfg, last.log, key, j)
                        && (last.log[j].saveOk <==> exists b :: b in last.started && KeyOf(b) == key)
                        && forall b :: b in last.started && KeyOf(b) == key ==> b.ctx == last.log[j].cpu
  {
    EndIsSound(cfg, limits, script, trace, NothingPending, last);
    hide Attempts, ScheduledKey, IsRun, Play, IsFirstAttempt;
    var j := NothingPendingMeansCovered(cfg, last.log, last.started, last.state, i, key);
  }

  // ----- What is left of the budgets, from the script alone

  /** What other threads added to the shared counter during slices 0 .. k-1. */
  ghost function Foreign(script: nat -> Slice, k: nat): nat {
    if k == 0 then 0 else Foreign(script, k - 1) + script(k - 1).others
  }

  /** The time that slices 0 .. k-1 took. */
  ghost function Elapsed(script: nat -> Slice, k: nat): nat {
    if k == 0 then 0 else Elapsed(script, k - 1) + script(k - 1).elapsedUs
  }

  /**
   * Before slice k the instruction budget is the limit less the run's own decoded instructions and those that other
   * threads counted meanwhile, and the time budget is the limit less the time of the slices; neither goes below 0.
   */
  lemma {:induction false} BudgetsAre(cfg: Config, limits: Limits, script: nat -> Slice, trace: seq<Progress>, k: nat)
    requires cfg.Valid() && IsRun(cfg, limits, script, trace) && k < |trace|
    ensures limits.maxInstr != 0 ==>
              var used := Counted(cfg, trace[k].log) + Foreign(script, k);
              trace[k].left == if used < limits.maxInstr then limits.maxInstr - used else 0
    ensures limits.maxTimeMs != 0 ==>
              var all := limits.maxTimeMs * 1000 % 0x1_0000_0000_0000_0000;
              trace[k].remainingUs == if Elapsed(script, k) < all then all - Elapsed(script, k) else 0
    decreases k
  {
    hide Counted, HookAll, Bounded;
    if k == 0 {
      NothingCounted(cfg);
    } else {
      BudgetsAre(cfg, limits, script, trace, k - 1);
      assert Follows(cfg, limits, script(k - 1), trace[k - 1], trace[k]);
      CountedAdds(cfg, trace[k - 1].log, Events(limits, trace[k - 1], script(k - 1)));
    }
  }

  lemma NothingCounted(cfg: Config)
    ensures Counted(cfg, []) == 0
  {
  }

  /** Slice k makes the hook calls of the script, up to what is left of the instruction budget. */
  lemma SliceExecutes(cfg: Config, limits: Limits, script: nat -> Slice, trace: seq<Progress>, k: nat)
    requires cfg.Valid() && IsRun(cfg, limits, script, trace) && k + 1 < |trace|
    ensures var events, left := script(k).events, trace[k].left;
            trace[k + 1].log == trace[k].log + if limits.maxInstr != 0 && left < |events| then events[..left] else events
  {
    hide HookAll, Counted, Spend;
    assert Follows(cfg, limits, script(k), trace[k], trace[k + 1]);
  }

  /** A run that is not stopped before ends for want of budget exactly when one of the limits has been used up. */
  lemma BudgetSpentIff(cfg: Config, limits: Limits, script: nat -> Slice, trace: seq<Progress>, reason: Reason, last: Progress)
    requires cfg.Valid() && IsRun(cfg, limits, script, trace)
    requires Ends(cfg, limits, script(|trace| - 1), trace[|trace| - 1], reason, last)
    ensures var n := |trace| - 1;
            reason == BudgetSpent <==>
              !script(n).stop
              && ((limits.maxInstr != 0 && Counted(cfg, trace[n].log) + Foreign(script, n) >= limits.maxInstr)
                  || (limits.maxTimeMs != 0 && Elapsed(script, n) >= limits.maxTimeMs * 1000 % 0x1_0000_0000_0000_0000))
  {
    hide Counted, Foreign, Elapsed, Play;
    BudgetsAre(cfg, limits, script, trace, |trace| - 1);
  }

  /** No earlier slice of the run had used a limit up. */
  lemma BudgetLastsUntil(cfg: Config, limits: Limits, script: nat -> Slice, trace: seq<Progress>, k: nat)
    requires cfg.Valid() && IsRun(cfg, limits, script, trace) && k + 1 < |trace|
    ensures !script(k).stop
    ensures limits.maxInstr != 0 ==> Counted(cfg, trace[k].log) + Foreign(script, k) < limits.maxInstr
    ensures limits.maxTimeMs != 0 ==> Elapsed(script, k) < limits.maxTimeMs * 1000 % 0x1_0000_0000_0000_0000
  {
    hide Counted, Foreign, Elapsed, Play;
    BudgetsAre(cfg, limits, script, trace, k);
    assert Follows(cfg, limits, script(k), trace[k], trace[k + 1]);
  }
}
