/** Path exploration: the pending stack, the visited set and the code hook (emulator.cpp, emulator.hpp). */
module Explorer {
  import opened Basics
  import opened Classifier
  import opened LoopLimiter

  // ----- What the hook sees

  datatype OperandType = Near | Far | Mem | Displ | OtherOperand

  /** A decoded instruction; op1Addr is the address field of its first operand. */
  datatype Insn = Insn(itype: Itype, op1: OperandType, op1Addr: nat, size: nat)

  /** The image range, the decoded instructions and the loop limit of one run. */
  datatype Config = Config(imageMin: nat, imageMax: nat, decoded: map<nat, Insn>, limit: nat) {
    predicate Valid() {
      limit <= U64_MAX
    }

    predicate Inside(address: nat) {
      imageMin <= address < imageMax
    }
  }

  /** A register context; `others` stands for every register the hook does not name. */
  datatype Cpu = Cpu(rip: nat, rax: nat, flags: Flags, others: nat)

  /**
   * One call of the code hook. The engine decides where it is and what it sees:
   * the registers on entry, the stop flag, the outcome of reading the first operand from memory, whether the
   * called address is a jump out of the image, the value a stub returns, the registers a custom handler leaves,
   * whether the register snapshot succeeds, and whether tracked memory is dirty.
   */
  datatype Event = Event(address: nat, size: nat, cpu: Cpu, stop: bool, memTarget: Option<nat>, thunk: bool,
                         stubRax: Option<nat>, handled: Cpu, saveOk: bool, dirty: bool)
  {
    function Fallthrough(): nat {
      address + size
    }
  }

  // ----- The exploration state

  datatype Key = Key(rip: nat, target: nat)

  /** A saved context and its entry point; `from`, which the code does not keep, records the branch it came from. */
  datatype Branch = Branch(ctx: Cpu, pc: nat, from: nat)

  function KeyOf(b: Branch): Key {
    Key(b.from, b.pc)
  }

  datatype State = State(pending: seq<Branch>, visited: set<Key>, loops: map<nat, LoopState>)

  const INITIAL := State([], {}, map[])

  /** emulator::schedule_branch. */
  function Schedule(cfg: Config, s: State, cpu: Cpu, key: Key, saveOk: bool): State {
    if key in s.visited then s
    else if !cfg.Inside(key.target) || !saveOk then s.(visited := s.visited + {key})
    else s.(visited := s.visited + {key}, pending := s.pending + [Branch(cpu, key.target, key.rip)])
  }

  function Resolve(insn: Insn, ev: Event): Option<nat> {
    match insn.op1
    case Near | Far => Some(insn.op1Addr)
    case Mem | Displ => ev.memTarget
    case OtherOperand => None
  }

  /** The instruction is a call that leaves the image, directly or through a jump. */
  predicate LeavesImage(cfg: Config, insn: Insn, ev: Event) {
    IsCall(insn.itype) && Resolve(insn, ev).Some? && (!cfg.Inside(Resolve(insn, ev).value) || ev.thunk)
  }

  function WithFlags(cpu: Cpu, t: Itype): Cpu {
    cpu.(flags := Force(t, cpu.flags))
  }

  function GetLoop(s: State, address: nat): Option<LoopState> {
    if address in s.loops then Some(s.loops[address]) else None
  }

  function SetLoop(s: State, address: nat, entry: Option<LoopState>): State {
    match entry
    case None => s.(loops := s.loops - {address})
    case Some(c) => s.(loops := s.loops[address := c])
  }

  datatype Outcome = Outcome(state: State, cpu: Cpu)

  /** The hook from the point where the instruction is known to be a conditional branch. */
  function BranchPath(cfg: Config, s: State, ev: Event, insn: Insn): Outcome
    requires cfg.Valid()
  {
    var t := Schedule(cfg, s, ev.cpu, Key(ev.address, ev.Fallthrough()), ev.saveOk);
    if insn.op1Addr > ev.address then
      Outcome(SetLoop(t, ev.address, None), WithFlags(ev.cpu, insn.itype))
    else if cfg.limit == 0 then
      Outcome(SetLoop(t, ev.address, None), ev.cpu)
    else
      var r := Execute(GetLoop(t, ev.address), ev.address, insn.op1Addr, cfg.limit, ev.dirty);
      Outcome(SetLoop(t, ev.address, r.0), if r.1 then ev.cpu.(rip := ev.Fallthrough()) else ev.cpu)
  }

  /** The decoded instruction of the event, unless the hook returns before looking at it. */
  function Seen(cfg: Config, ev: Event): Option<Insn> {
    if ev.stop || ev.address !in cfg.decoded then None else Some(cfg.decoded[ev.address])
  }

  /** The hook passes the skip, custom-handler and external-call exits. */
  predicate Reaches(cfg: Config, ev: Event) {
    Seen(cfg, ev).Some? && var insn := Seen(cfg, ev).value;
    !insn.itype.Skipped? && !insn.itype.Handled? && !LeavesImage(cfg, insn, ev)
  }

  predicate OnBranchPath(cfg: Config, ev: Event) {
    Reaches(cfg, ev) && IsBranch(Seen(cfg, ev).value.itype)
  }

  predicate OnIndirectPath(cfg: Config, ev: Event) {
    Reaches(cfg, ev)
    && (IsJump(Seen(cfg, ev).value.itype) || IsCall(Seen(cfg, ev).value.itype))
    && (Seen(cfg, ev).value.op1.Mem? || Seen(cfg, ev).value.op1.Displ?)
    && ev.memTarget.Some?
  }

  /** emulator::hook_code. */
  function Hook(cfg: Config, s: State, ev: Event): Outcome
    requires cfg.Valid()
  {
    if Seen(cfg, ev).None? then Outcome(s, ev.cpu)
    else
      var insn := Seen(cfg, ev).value;
      if insn.itype.Skipped? then Outcome(s, ev.cpu.(rip := ev.Fallthrough()))
      else if insn.itype.Handled? then Outcome(s, ev.handled.(rip := ev.address + insn.size))
      else if LeavesImage(cfg, insn, ev) then
        Outcome(s, ev.cpu.(rip := ev.Fallthrough(), rax := if ev.stubRax.Some? then ev.stubRax.value else 0))
      else
        var t := if OnIndirectPath(cfg, ev)
                 then Schedule(cfg, s, ev.cpu, Key(ev.address, ev.memTarget.value), ev.saveOk) else s;
        if IsBranch(insn.itype) then BranchPath(cfg, t, ev, insn)
        else if IsFlagDependent(insn.itype) then Outcome(t, WithFlags(ev.cpu, insn.itype))
        else Outcome(t, ev.cpu)
  }

  // ----- What one hook call does to the two scheduling structures

  /** The key this event tries to schedule, if any. */
  function ScheduledKey(cfg: Config, ev: Event): Option<Key> {
    if OnBranchPath(cfg, ev) then Some(Key(ev.address, ev.Fallthrough()))
    else if OnIndirectPath(cfg, ev) then Some(Key(ev.address, ev.memTarget.value))
    else None
  }

  function ScheduleEvent(cfg: Config, s: State, ev: Event): State {
    match ScheduledKey(cfg, ev)
    case None => s
    case Some(key) => Schedule(cfg, s, ev.cpu, key, ev.saveOk)
  }

  lemma BranchPathSchedules(cfg: Config, s: State, ev: Event, insn: Insn)
    requires cfg.Valid()
    ensures var t := Schedule(cfg, s, ev.cpu, Key(ev.address, ev.Fallthrough()), ev.saveOk);
            BranchPath(cfg, s, ev, insn).state.pending == t.pending && BranchPath(cfg, s, ev, insn).state.visited == t.visited
  {
    hide Execute, WithFlags, Schedule;
  }

  lemma HookSchedules(cfg: Config, s: State, ev: Event)
    requires cfg.Valid()
    ensures Hook(cfg, s, ev).state.pending == ScheduleEvent(cfg, s, ev).pending
    ensures Hook(cfg, s, ev).state.visited == ScheduleEvent(cfg, s, ev).visited
  {
    hide BranchPath, WithFlags, Schedule;
    if Seen(cfg, ev).Some? {
      BranchPathSchedules(cfg, s, ev, Seen(cfg, ev).value);
    }
  }

  /** The address the engine executes next if `insn` is a conditional branch and the hook left `cpu`. */
  function NextPc(insn: Insn, ev: Event, cpu: Cpu): nat {
    if cpu.rip != ev.address then cpu.rip
    else if Holds(insn.itype, cpu.flags) then insn.op1Addr
    else ev.Fallthrough()
  }

  /**
   * A forward branch always continues at its target, and its fallthrough has been tried with the registers as
   * they were before the flags were forced.
   */
  lemma ForwardBranchFollowsBoth(cfg: Config, s: State, ev: Event)
    requires cfg.Valid() && OnBranchPath(cfg, ev) && ev.cpu.rip == ev.address
    requires Seen(cfg, ev).value.op1Addr > ev.address
    ensures var insn := Seen(cfg, ev).value;
            var r := Hook(cfg, s, ev);
            && NextPc(insn, ev, r.cpu) == insn.op1Addr
            && Key(ev.address, ev.Fallthrough()) in r.state.visited
            && (Key(ev.address, ev.Fallthrough()) !in s.visited && cfg.Inside(ev.Fallthrough()) && ev.saveOk ==>
                  r.state.pending == s.pending + [Branch(ev.cpu, ev.Fallthrough(), ev.address)])
  {
    ForceMakesConditionHold(Seen(cfg, ev).value.itype, ev.cpu.flags);
  }
}
