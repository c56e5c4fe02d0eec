/** What the code hook does at each of its exits, event by event (emulator::hook_code). */
module HookExits {
  import opened Basics
  import opened Classifier
  import opened LoopLimiter
  import opened Explorer

  /** The event is a decoded instruction, and no stop was requested. */
  predicate Executes(cfg: Config, ev: Event, insn: Insn) {
    !ev.stop && ev.address in cfg.decoded && cfg.decoded[ev.address] == insn
  }

  /** The first operand names this target, as an address or as what memory holds there. */
  predicate Targets(insn: Insn, ev: Event, target: nat) {
    ((insn.op1.Near? || insn.op1.Far?) && target == insn.op1Addr)
    || ((insn.op1.Mem? || insn.op1.Displ?) && ev.memTarget == Some(target))
  }

  /** A call whose target lies outside the image, or is a jump out of it. */
  ghost predicate CallsOut(cfg: Config, insn: Insn, ev: Event) {
    (insn.itype.Call? || insn.itype.Callfi? || insn.itype.Callni?)
    && exists target: nat :: Targets(insn, ev, target) && (target < cfg.imageMin || cfg.imageMax <= target || ev.thunk)
  }

  lemma CallsOutIff(cfg: Config, insn: Insn, ev: Event)
    ensures CallsOut(cfg, insn, ev) <==> LeavesImage(cfg, insn, ev)
  {
    if LeavesImage(cfg, insn, ev) {
      assert Targets(insn, ev, Resolve(insn, ev).value);
    }
  }

  /** A stop request or an address that is not decoded: nothing happens. */
  lemma NotExecuted(cfg: Config, s: State, ev: Event)
    requires cfg.Valid() && (ev.stop || ev.address !in cfg.decoded)
    ensures Hook(cfg, s, ev) == Outcome(s, ev.cpu)
  {
  }

  /** Skipped types are stepped over; handled ones leave the handler's registers behind and go on after the instruction. */
  lemma SteppedOver(cfg: Config, s: State, ev: Event, insn: Insn)
    requires cfg.Valid() && Executes(cfg, ev, insn)
    ensures insn.itype.Skipped? ==> Hook(cfg, s, ev) == Outcome(s, ev.cpu.(rip := ev.address + ev.size))
    ensures insn.itype.Handled? ==> Hook(cfg, s, ev) == Outcome(s, ev.handled.(rip := ev.address + insn.size))
  {
  }

  /** A call out of the image is stepped over, and leaves the stub's value in rax, or 0 if there is no stub. */
  lemma CallStubbed(cfg: Config, s: State, ev: Event, insn: Insn)
    requires cfg.Valid() && Executes(cfg, ev, insn) && CallsOut(cfg, insn, ev)
    ensures ev.stubRax.None? ==> Hook(cfg, s, ev) == Outcome(s, ev.cpu.(rip := ev.address + ev.size, rax := 0))
    ensures ev.stubRax.Some? ==>
              Hook(cfg, s, ev) == Outcome(s, ev.cpu.(rip := ev.address + ev.size, rax := ev.stubRax.value))
  {
    CallsOutIff(cfg, insn, ev);
  }

  /** A conditional move or set has its condition made true, through the status flags alone, and nothing else changes. */
  lemma FlagOperationForced(cfg: Config, s: State, ev: Event, insn: Insn)
    requires cfg.Valid() && Executes(cfg, ev, insn) && IsFlagDependent(insn.itype)
    ensures var r := Hook(cfg, s, ev);
            && r.state == s && r.cpu == ev.cpu.(flags := r.cpu.flags)
            && Holds(insn.itype, r.cpu.flags) && SameButStatus(ev.cpu.flags, r.cpu.flags)
  {
    hide Force, Holds, SameButStatus, IsBranch;
    FlagOperationsAreNoBranches(insn.itype);
    ForceMakesConditionHold(insn.itype, ev.cpu.flags);
    ForceTouchesStatusOnly(insn.itype, ev.cpu.flags);
  }

  lemma FlagOperationsAreNoBranches(t: Itype)
    requires IsFlagDependent(t)
    ensures !IsBranch(t) && !t.Skipped? && !t.Handled? && !IsCall(t) && !IsJump(t)
    ensures !t.Jcxz? && !t.Jecxz? && !t.Jrcxz?
  {
  }

  lemma BranchesAreBranches(t: Itype)
    requires IsBranch(t)
    ensures !IsFlagDependent(t) && !t.Skipped? && !t.Handled? && !IsCall(t) && !IsJump(t)
  {
  }

  /**
   * A conditional branch pushes its fallthrough with the registers as they were. Then, if it jumps forward, its
   * condition is made true through the status flags or, for the jcxz family, by clearing rcx, and its loop counter is
   * dropped; if it jumps back and there is no loop limit, the registers stay as they were and its counter is dropped.
   */
  lemma BranchForced(cfg: Config, s: State, ev: Event, insn: Insn)
    requires cfg.Valid() && Executes(cfg, ev, insn) && IsBranch(insn.itype)
    ensures var r := Hook(cfg, s, ev);
            var t := Schedule(cfg, s, ev.cpu, Key(ev.address, ev.address + ev.size), ev.saveOk);
            && r.state.pending == t.pending && r.state.visited == t.visited
            && (insn.op1Addr > ev.address ==>
                  && r.cpu == ev.cpu.(flags := r.cpu.flags) && Holds(insn.itype, r.cpu.flags)
                  && (if insn.itype.Jcxz? || insn.itype.Jecxz? || insn.itype.Jrcxz?
                      then r.cpu.flags == ev.cpu.flags.(rcx := 0) else SameButStatus(ev.cpu.flags, r.cpu.flags))
                  && r.state.loops == s.loops - {ev.address})
            && (insn.op1Addr <= ev.address && cfg.limit == 0 ==>
                  r.cpu == ev.cpu && r.state.loops == s.loops - {ev.address})
  {
    hide Force, Holds, SameButStatus, IsFlagDependent;
    BranchesAreBranches(insn.itype);
    ForceMakesConditionHold(insn.itype, ev.cpu.flags);
    ForceTouchesStatusOnly(insn.itype, ev.cpu.flags);
    hide IsBranch;
  }

  /** Every other instruction leaves the registers to the engine; an indirect jump or call has its target pushed. */
  lemma OthersRun(cfg: Config, s: State, ev: Event, insn: Insn)
    requires cfg.Valid() && Executes(cfg, ev, insn) && !CallsOut(cfg, insn, ev)
    requires !insn.itype.Skipped? && !insn.itype.Handled? && !IsConditional(insn.itype)
    ensures Hook(cfg, s, ev).cpu == ev.cpu
    ensures Hook(cfg, s, ev).state ==
            if (insn.itype.Jmp? || insn.itype.Jmpfi? || insn.itype.Jmpni?
                || insn.itype.Call? || insn.itype.Callfi? || insn.itype.Callni?)
               && (insn.op1.Mem? || insn.op1.Displ?) && ev.memTarget.Some?
            then Schedule(cfg, s, ev.cpu, Key(ev.address, ev.memTarget.value), ev.saveOk) else s
  {
    hide IsBranch, IsFlagDependent;
    CallsOutIff(cfg, insn, ev);
    hide LeavesImage;
  }

  /** One scheduling: a new key inside the image whose snapshot succeeds is pushed; a new key is marked in any case. */
  lemma ScheduleCases(cfg: Config, s: State, cpu: Cpu, from: nat, target: nat, saveOk: bool)
    ensures var t := Schedule(cfg, s, cpu, Key(from, target), saveOk);
            && t.visited == s.visited + {Key(from, target)} && t.loops == s.loops
            && t.pending == s.pending + if Key(from, target) !in s.visited && cfg.imageMin <= target < cfg.imageMax && saveOk
                                        then [Branch(cpu, target, from)] else []
  {
    assert s.pending + [] == s.pending;
    if Key(from, target) in s.visited {
      assert s.visited + {Key(from, target)} == s.visited;
    }
  }

  /** The events whose key the exploration theorems speak of: branches, and indirect jumps and calls that stay inside. */
  lemma KeyIsScheduled(cfg: Config, ev: Event, insn: Insn)
    requires Executes(cfg, ev, insn)
    ensures IsBranch(insn.itype) ==>
              OnBranchPath(cfg, ev) && ScheduledKey(cfg, ev) == Some(Key(ev.address, ev.address + ev.size))
    ensures insn.itype.Jmp? || insn.itype.Jmpfi? || insn.itype.Jmpni? ==>
              ((insn.op1.Mem? || insn.op1.Displ?) && ev.memTarget.Some? ==>
                 ScheduledKey(cfg, ev) == Some(Key(ev.address, ev.memTarget.value)))
    ensures insn.itype.Call? || insn.itype.Callfi? || insn.itype.Callni? ==>
              ((insn.op1.Mem? || insn.op1.Displ?) && ev.memTarget.Some?
               && cfg.imageMin <= ev.memTarget.value < cfg.imageMax && !ev.thunk ==>
                 ScheduledKey(cfg, ev) == Some(Key(ev.address, ev.memTarget.value)))
  {
    hide IsFlagDependent;
  }
}
