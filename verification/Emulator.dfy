/** The emulator class: the code hook and the run loop, in the form of emulator.cpp. */
module EmulatorRun {
  import opened Basics
  import opened Classifier
  import opened LoopLimiter
  import opened Explorer
  import opened Exploration
  import opened Runs

  lemma CountedGrows(cfg: Config, log: seq<Event>, ev: Event)
    ensures Counted(cfg, log + [ev]) == Counted(cfg, log) + if Seen(cfg, ev).Some? then 1 else 0
  {
    assert (log + [ev])[..|log|] == log;
  }

  lemma HookAllGrows(cfg: Config, s: State, log: seq<Event>, ev: Event)
    requires cfg.Valid()
    ensures HookAll(cfg, s, log + [ev]) == Hook(cfg, HookAll(cfg, s, log), ev).state
  {
    assert (log + [ev])[..|log|] == log;
  }

  lemma RunStarts(cfg: Config, limits: Limits, script: nat -> Slice)
    requires cfg.Valid()
    ensures IsRun(cfg, limits, script, [Start(limits)])
  {
  }

  lemma RunGrows(cfg: Config, limits: Limits, script: nat -> Slice, trace: seq<Progress>)
    requires cfg.Valid() && IsRun(cfg, limits, script, trace) && trace != []
    requires var p, slice := trace[|trace| - 1], script(|trace| - 1);
             Plays(limits, p, slice) && Play(cfg, limits, p, slice).state.pending != [] && slice.restoreOk
    ensures IsRun(cfg, limits, script, trace + [Take(Play(cfg, limits, trace[|trace| - 1], script(|trace| - 1)))])
  {
    hide Play, Take;
  }

  /**
   * The registers that each slice is started with: the first has those of the call and starts at `start`, every later
   * one has those saved for the branch taken before it and starts where that branch leads.
   */
  ghost predicate EntersAt(first: Cpu, start: nat, trace: seq<Progress>, entered: seq<Cpu>) {
    |entered| <= |trace| && (entered != [] ==> entered[0] == first.(rip := start))
    && forall k :: 0 < k < |entered| ==>
         |trace[k].started| == k && entered[k] == trace[k].started[k - 1].ctx.(rip := trace[k].started[k - 1].pc)
  }

  lemma EntersNothing(first: Cpu, start: nat, trace: seq<Progress>)
    ensures EntersAt(first, start, trace, [])
  {
  }

  lemma EntersOneMore(first: Cpu, start: nat, trace: seq<Progress>, entered: seq<Cpu>, now: Cpu)
    requires EntersAt(first, start, trace, entered) && |entered| < |trace|
    requires entered == [] ==> now == first.(rip := start)
    requires entered != [] ==> var k := |entered|;
               |trace[k].started| == k && now == trace[k].started[k - 1].ctx.(rip := trace[k].started[k - 1].pc)
    ensures EntersAt(first, start, trace, entered + [now])
  {
  }

  lemma EntersInLonger(first: Cpu, start: nat, trace: seq<Progress>, p: Progress, entered: seq<Cpu>)
    requires EntersAt(first, start, trace, entered)
    ensures EntersAt(first, start, trace + [p], entered)
  {
  }

  class Emulator {
    const cfg: Config
    var cpu: Cpu
    var pending: seq<Branch>
    var visited: set<Key>
    var loopIterations: map<nat, LoopState>
    /** The instruction counter, which other threads advance too. */
    var executed: nat

    constructor (cfg: Config, cpu: Cpu, executed: nat)
      ensures this.cfg == cfg && Model() == INITIAL
    {
      this.cfg := cfg;
      this.cpu := cpu;
      this.executed := executed;
      pending, visited, loopIterations := [], {}, map[];
    }

    function Model(): State
      reads this
    {
      State(pending, visited, loopIterations)
    }

    method ScheduleBranch(from: nat, target: nat, saveOk: bool) returns (pushed: bool)
      modifies `pending, `visited
      ensures Model() == Schedule(cfg, old(Model()), cpu, Key(from, target), saveOk)
      ensures pushed <==> pending != old(pending)
    {
      var key := Key(from, target);
      if key in visited {
        return false;
      }
      if !cfg.Inside(target) {
        visited := visited + {key};
        return false;
      }
      if !saveOk {
        visited := visited + {key};
        return false;
      }
      pending := pending + [Branch(cpu, target, from)];
      visited := visited + {key};
      return true;
    }

    method DiscoverIndirectTargets(ev: Event, insn: Insn)
      modifies `pending, `visited
      ensures Model() ==
              if (IsJump(insn.itype) || IsCall(insn.itype)) && (insn.op1.Mem? || insn.op1.Displ?) && ev.memTarget.Some?
              then Schedule(cfg, old(Model()), cpu, Key(ev.address, ev.memTarget.value), ev.saveOk)
              else old(Model())
    {
      if !IsJump(insn.itype) && !IsCall(insn.itype) {
        return;
      }
      if !insn.op1.Mem? && !insn.op1.Displ? {
        return;
      }
      var target := Resolve(insn, ev);
      if target.Some? {
        var _ := ScheduleBranch(ev.address, target.value, ev.saveOk);
      }
    }

    method HandleCall(ev: Event, insn: Insn) returns (handled: bool)
      modifies `cpu
      ensures handled <==> LeavesImage(cfg, insn, ev)
      ensures cpu == if handled
                     then old(cpu).(rip := ev.Fallthrough(), rax := if ev.stubRax.Some? then ev.stubRax.value else 0)
                     else old(cpu)
    {
      if !IsCall(insn.itype) {
        return false;
      }
      var target := Resolve(insn, ev);
      var outside := target.Some? && !cfg.Inside(target.value);
      if !outside && target.Some? && ev.thunk {
        outside := true;
      }
      if !outside {
        return false;
      }
      cpu := cpu.(rip := ev.Fallthrough());
      match ev.stubRax {
        case Some(value) => cpu := cpu.(rax := value);
        case None => cpu := cpu.(rax := 0);
      }
      return true;
    }

    /** emulator::hook_code. */
    method HookCode(ev: Event)
      requires cfg.Valid() && cpu == ev.cpu
      modifies this
      ensures Model() == Hook(cfg, old(Model()), ev).state
      ensures cpu == Hook(cfg, old(Model()), ev).cpu
      ensures executed == old(executed) + if Seen(cfg, ev).Some? then 1 else 0
    {
      hide BranchPath, Schedule, Force;
      if ev.stop {
        return;
      }
      if ev.address !in cfg.decoded {
        return;
      }
      var insn := cfg.decoded[ev.address];
      executed := executed + 1;
      if insn.itype.Skipped? {
        cpu := cpu.(rip := ev.Fallthrough());
        return;
      }
      if insn.itype.Handled? {
        cpu := ev.handled.(rip := ev.address + insn.size);
        return;
      }
      var handled := HandleCall(ev, insn);
      if handled {
        return;
      }
      DiscoverIndirectTargets(ev, insn);
      if !IsConditional(insn.itype) {
        return;
      }
      if !IsBranch(insn.itype) {
        cpu := WithFlags(cpu, insn.itype);
        return;
      }
      HandleBranch(ev, insn);
    }

    /** The end of hook_code, for conditional branches. */
    method HandleBranch(ev: Event, insn: Insn)
      requires cfg.Valid() && cpu == ev.cpu
      modifies `cpu, `pending, `visited, `loopIterations
      ensures Outcome(Model(), cpu) == BranchPath(cfg, old(Model()), ev, insn)
    {
      hide Schedule, Force;
      var taken := insn.op1Addr;
      var _ := ScheduleBranch(ev.address, ev.Fallthrough(), ev.saveOk);
      if taken <= ev.address {
        if cfg.limit == 0 {
          loopIterations := loopIterations - {ev.address};
        } else {
          var exit := CountIteration(ev.address, taken, ev.dirty);
          if exit {
            cpu := cpu.(rip := ev.Fallthrough());
            return;
          }
        }
      } else {
        loopIterations := loopIterations - {ev.address};
      }
      if taken > ev.address {
        cpu := WithFlags(cpu, insn.itype);
      }
    }

    method CountIteration(address: nat, taken: nat, dirty: bool) returns (exit: bool)
      requires cfg.Valid() && cfg.limit > 0 && taken <= address
      modifies `loopIterations
      ensures var r := Execute(GetLoop(old(Model()), address), address, taken, cfg.limit, dirty);
              exit == r.1 && Model() == SetLoop(old(Model()), address, r.0)
    {
      if address !in loopIterations {
        loopIterations := loopIterations[address := Counter(0, taken)];
      }
      var state: Counter := loopIterations[address];
      if state.lastTarget != taken {
        state := Counter(0, taken);
      }
      state := state.(hits := state.hits + 1);
      var allowance := Allowance(cfg.limit, dirty, address - taken);
      if state.hits >= allowance {
        loopIterations := loopIterations - {address};
        return true;
      }
      loopIterations := loopIterations[address := state];
      return false;
    }

    /** uc_emu_start: the engine, its registers set up, calls the hook at each event. */
    method EmuStart(events: seq<Event>)
      requires cfg.Valid()
      modifies this
      ensures Model() == HookAll(cfg, old(Model()), events)
      ensures executed == old(executed) + Counted(cfg, events)
    {
      hide Hook;
      for i := 0 to |events|
        invariant Model() == HookAll(cfg, old(Model()), events[..i])
        invariant executed == old(executed) + Counted(cfg, events[..i])
      {
        cpu := events[i].cpu;
        HookCode(events[i]);
        HookAllGrows(cfg, old(Model()), events[..i], events[i]);
        CountedGrows(cfg, events[..i], events[i]);
        assert events[..i + 1] == events[..i] + [events[i]];
      }
      assert events[..|events|] == events;
    }

    /** One slice of the run loop, up to the point where the pending stack is looked at. */
    method PlaySlice(limits: Limits, slice: Slice, entry: nat, left: nat, remainingUs: nat, ghost p: Progress)
      returns (leftNow: nat, remainingNow: nat, ghost entered: Cpu)
      requires cfg.Valid() && Model() == p.state && left == p.left && remainingUs == p.remainingUs
      requires p.started != [] ==> cpu == p.started[|p.started| - 1].ctx && entry == p.started[|p.started| - 1].pc
      modifies this
      ensures var q := Play(cfg, limits, p, slice); Model() == q.state && leftNow == q.left && remainingNow == q.remainingUs
      // the registers that the engine is started with
      ensures entered == old(cpu).(rip := entry)
    {
      hide HookAll, Counted;
      leftNow, remainingNow := left, remainingUs;
      cpu := cpu.(rip := entry);
      entered := cpu;
      var instrBefore := executed;
      EmuStart(Bounded(slice.events, if limits.maxInstr != 0 then left else 0));
      executed := executed + slice.others;
      if limits.maxInstr != 0 {
        var delta := executed - instrBefore;
        leftNow := if delta >= left then 0 else left - delta;
      }
      if limits.maxTimeMs != 0 {
        remainingNow := if slice.elapsedUs >= remainingUs then 0 else remainingUs - slice.elapsedUs;
      }
    }

    /**
     * emulator::run against any engine behaviour: `script(k)` is what the engine does in slice k, and `trace[k]`
     * is where the run stands before that slice.
     */
    method Run(start: nat, limits: Limits, script: nat -> Slice)
      returns (reason: Reason, slices: nat, ghost trace: seq<Progress>, ghost last: Progress, ghost entered: seq<Cpu>)
      requires cfg.Valid()
      modifies this
      ensures IsRun(cfg, limits, script, trace)
      ensures Ends(cfg, limits, script(|trace| - 1), trace[|trace| - 1], reason, last)
      ensures Model() == last.state
      ensures slices == if reason.StopRequested? || reason.BudgetSpent? then |trace| - 1 else |trace|
      ensures |entered| == slices && EntersAt(old(cpu), start, trace, entered)
    {
      hide HookAll, Counted, Take, Play, Measure, Sound, IsRun, EntersAt;
      pending, visited, loopIterations := [], {}, map[];
      slices := 0;
      var limitTime, limitInstr := limits.maxTimeMs != 0, limits.maxInstr != 0;
      var remainingUs: nat, left: nat := limits.maxTimeMs * 1000 % 0x1_0000_0000_0000_0000, limits.maxInstr;
      var entry := start;
      ghost var p := Start(limits);
      trace := [p];
      entered := [];
      SoundInitially(cfg, limits);
      RunStarts(cfg, limits, script);
      EntersNothing(old(cpu), start, trace);
      while true
        invariant IsRun(cfg, limits, script, trace) && Sound(cfg, limits, p)
        invariant slices == |trace| - 1 && p == trace[slices]
        invariant Model() == p.state && left == p.left && remainingUs == p.remainingUs
        invariant |entered| == slices && |p.started| == slices && EntersAt(old(cpu), start, trace, entered)
        invariant slices == 0 ==> cpu == old(cpu) && entry == start
        invariant p.started != [] ==> cpu == p.started[|p.started| - 1].ctx && entry == p.started[|p.started| - 1].pc
        decreases Measure(cfg, p.state)
      {
        var slice := script(slices);
        if slice.stop {
          return StopRequested, slices, trace, p, entered;
        }
        if (limitTime && remainingUs == 0) || (limitInstr && left == 0) {
          return BudgetSpent, slices, trace, p, entered;
        }
        ghost var q := Play(cfg, limits, p, slice);
        PlayKeepsSound(cfg, limits, p, slice);
        ghost var now;
        left, remainingUs, now := PlaySlice(limits, slice, entry, left, remainingUs, p);
        EntersOneMore(old(cpu), start, trace, entered, now);
        entered := entered + [now];
        slices := slices + 1;
        if pending == [] {
          return NothingPending, slices, trace, q, entered;
        }
        var state := TakeNext();
        p := Take(q);
        TakeShape(q);
        TakeKeepsSound(cfg, limits, q);
        if !slice.restoreOk {
          return RestoreFailed, slices, trace, p, entered;
        }
        PlayStarted(cfg, limits, trace[slices - 1], slice);
        RunGrows(cfg, limits, script, trace);
        EntersInLonger(old(cpu), start, trace, p, entered);
        trace := trace + [p];
        cpu := state.ctx;
        entry := state.pc;
      }
    }

    /** branch_manager::take_next: the most recently saved branch. */
    method TakeNext() returns (state: Branch)
      requires pending != []
      modifies `pending
      ensures old(pending) == pending + [state]
    {
      state := pending[|pending| - 1];
      pending := pending[..|pending| - 1];
    }
  }

  lemma TakeShape(q: Progress)
    requires q.state.pending != []
    ensures var n := |q.state.pending| - 1;
            Take(q).state == q.state.(pending := q.state.pending[..n])
            && Take(q).started == q.started + [q.state.pending[n]]
            && Take(q).left == q.left && Take(q).remainingUs == q.remainingUs
  {
  }
}
