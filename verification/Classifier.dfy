/** Instruction classes and flag forcing (instruction_classifier.hpp, emulator::force_branch). */
module Classifier {

  /** The instruction types the exploration tells apart; the last three stand for whole families. */
  datatype Itype =
    | Ja | Jae | Jb | Jbe | Jc | Je | Jz | Jg | Jge | Jl | Jle
    | Jna | Jnae | Jnb | Jnbe | Jnc | Jne | Jng | Jnge | Jnl | Jnle | Jno
    | Jnp | Jns | Jnz | Jo | Jp | Jpe | Jpo | Js | Jcxz | Jecxz | Jrcxz
    | Cmova | Cmovb | Cmovbe | Cmovg | Cmovge | Cmovl | Cmovle | Cmovno | Cmovnp
    | Cmovns | Cmovnz | Cmovo | Cmovp | Cmovs | Cmovz | Seta | Setae | Setb
    | Setbe | Setc | Sete | Setg | Setge | Setl | Setle | Setne | Setno
    | Setnp | Setns | Setnz | Seto | Setp | Setpo | Sets | Setz
    | Call | Callfi | Callni | Retn | Retf | Jmp | Jmpfi | Jmpni
    | Skipped(code: nat) | Handled(code: nat) | Plain(code: nat)

  predicate IsBranch(t: Itype) {
    t.Ja? || t.Jae? || t.Jb? || t.Jbe? || t.Jc? || t.Je? || t.Jz? || t.Jg? || t.Jge? || t.Jl? || t.Jle?
    || t.Jna? || t.Jnae? || t.Jnb? || t.Jnbe? || t.Jnc? || t.Jne? || t.Jng? || t.Jnge? || t.Jnl? || t.Jnle? || t.Jno?
    || t.Jnp? || t.Jns? || t.Jnz? || t.Jo? || t.Jp? || t.Jpe? || t.Jpo? || t.Js? || t.Jcxz? || t.Jecxz? || t.Jrcxz?
  }

  predicate IsFlagDependent(t: Itype) {
    t.Cmova? || t.Cmovb? || t.Cmovbe? || t.Cmovg? || t.Cmovge? || t.Cmovl? || t.Cmovle? || t.Cmovno? || t.Cmovnp?
    || t.Cmovns? || t.Cmovnz? || t.Cmovo? || t.Cmovp? || t.Cmovs? || t.Cmovz? || t.Seta? || t.Setae? || t.Setb?
    || t.Setbe? || t.Setc? || t.Sete? || t.Setg? || t.Setge? || t.Setl? || t.Setle? || t.Setne? || t.Setno?
    || t.Setnp? || t.Setns? || t.Setnz? || t.Seto? || t.Setp? || t.Setpo? || t.Sets? || t.Setz?
  }

  predicate IsConditional(t: Itype) {
    IsBranch(t) || IsFlagDependent(t)
  }

  predicate IsCall(t: Itype) {
    t.Call? || t.Callfi? || t.Callni?
  }

  predicate IsJump(t: Itype) {
    t.Jmp? || t.Jmpfi? || t.Jmpni?
  }

  // ----- Flags

  const CF: bv64 := 0x001
  const PF: bv64 := 0x004
  const ZF: bv64 := 0x040
  const SF: bv64 := 0x080
  const OF: bv64 := 0x800

  /** The two registers that decide a condition. */
  datatype Flags = Flags(eflags: bv64, rcx: bv64)

  function Set(f: Flags, mask: bv64): Flags {
    f.(eflags := f.eflags | mask)
  }

  function Clear(f: Flags, mask: bv64): Flags {
    f.(eflags := f.eflags & !mask)
  }

  predicate Has(f: Flags, mask: bv64) {
    f.eflags & mask != 0
  }

  /** emulator::force_branch: the registers it leaves behind. */
  function Force(t: Itype, f: Flags): Flags {
    match t
    case Jz | Je | Cmovz | Sete | Setz => Set(f, ZF)
    case Jnz | Jne | Cmovnz | Setne | Setnz => Clear(f, ZF)
    case Jc | Jb | Jnae | Cmovb | Setb | Setc => Set(f, CF)
    case Jnc | Jnb | Jae | Setae => Clear(f, CF)
    case Js | Cmovs | Sets => Set(f, SF)
    case Jns | Cmovns | Setns => Clear(f, SF)
    case Jo | Cmovo | Seto => Set(f, OF)
    case Jno | Cmovno | Setno => Clear(f, OF)
    case Jp | Jpe | Cmovp | Setp => Set(f, PF)
    case Jnp | Jpo | Cmovnp | Setnp | Setpo => Clear(f, PF)
    case Ja | Jnbe | Cmova | Seta => Clear(f, CF | ZF)
    case Jbe | Jna | Cmovbe | Setbe => Set(f, CF)
    case Jg | Jnle | Cmovg | Setg => Clear(f, ZF | SF | OF)
    case Jge | Jnl | Cmovge | Setge => Clear(f, SF | OF)
    case Jl | Jnge | Cmovl | Setl => Clear(Set(f, SF), OF)
    case Jle | Jng | Cmovle | Setle => Set(f, ZF)
    case Jcxz | Jecxz | Jrcxz => f.(rcx := 0)
    case _ => f
  }

  // ----- Reference: the condition each mnemonic tests in the x86-64 instruction set

  /** The condition of the mnemonic holds: a jump is taken, a move is made, a byte is set to 1. */
  predicate Holds(t: Itype, f: Flags) {
    match t
    case Jo | Cmovo | Seto => Has(f, OF)
    case Jno | Cmovno | Setno => !Has(f, OF)
    case Jb | Jc | Jnae | Cmovb | Setb | Setc => Has(f, CF)
    case Jae | Jnb | Jnc | Setae => !Has(f, CF)
    case Je | Jz | Cmovz | Sete | Setz => Has(f, ZF)
    case Jne | Jnz | Cmovnz | Setne | Setnz => !Has(f, ZF)
    case Jbe | Jna | Cmovbe | Setbe => Has(f, CF) || Has(f, ZF)
    case Ja | Jnbe | Cmova | Seta => !Has(f, CF) && !Has(f, ZF)
    case Js | Cmovs | Sets => Has(f, SF)
    case Jns | Cmovns | Setns => !Has(f, SF)
    case Jp | Jpe | Cmovp | Setp => Has(f, PF)
    case Jnp | Jpo | Cmovnp | Setnp | Setpo => !Has(f, PF)
    case Jl | Jnge | Cmovl | Setl => Has(f, SF) != Has(f, OF)
    case Jge | Jnl | Cmovge | Setge => Has(f, SF) == Has(f, OF)
    case Jle | Jng | Cmovle | Setle => Has(f, ZF) || Has(f, SF) != Has(f, OF)
    case Jg | Jnle | Cmovg | Setg => !Has(f, ZF) && Has(f, SF) == Has(f, OF)
    case Jcxz => f.rcx & 0xffff == 0
    case Jecxz => f.rcx & 0xffff_ffff == 0
    case Jrcxz => f.rcx == 0
    case _ => false
  }

  lemma SetGives(f: Flags, m: bv64)
    requires m != 0
    ensures Has(Set(f, m), m)
  {
    assert (f.eflags | m) & m == m;
  }

  lemma ClearDrops(f: Flags, m: bv64, b: bv64)
    requires b & m == b
    ensures !Has(Clear(f, m), b)
  {
    assert (f.eflags & !m) & b == 0;
  }

  lemma SignWithoutOverflow(f: Flags)
    ensures Has(Clear(Set(f, SF), OF), SF)
  {
    assert ((f.eflags | SF) & !OF) & SF == SF;
  }

  lemma SingleMasks(f: Flags)
    ensures Has(Set(f, CF), CF) && Has(Set(f, PF), PF) && Has(Set(f, ZF), ZF) && Has(Set(f, SF), SF) && Has(Set(f, OF), OF)
    ensures !Has(Clear(f, CF), CF) && !Has(Clear(f, PF), PF) && !Has(Clear(f, ZF), ZF)
    ensures !Has(Clear(f, SF), SF) && !Has(Clear(f, OF), OF)
  {
    hide Has, Set, Clear;
    SetGives(f, CF);
    SetGives(f, PF);
    SetGives(f, ZF);
    SetGives(f, SF);
    SetGives(f, OF);
    ClearDrops(f, CF, CF);
    ClearDrops(f, PF, PF);
    ClearDrops(f, ZF, ZF);
    ClearDrops(f, SF, SF);
    ClearDrops(f, OF, OF);
  }

  lemma ForceAbove(t: Itype, f: Flags)
    requires t.Ja? || t.Jnbe? || t.Cmova? || t.Seta?
    ensures Holds(t, Force(t, f))
  {
    hide Has, Set, Clear;
    ClearDrops(f, CF | ZF, CF);
    ClearDrops(f, CF | ZF, ZF);
  }

  lemma ForceGreater(t: Itype, f: Flags)
    requires t.Jg? || t.Jnle? || t.Cmovg? || t.Setg?
    ensures Holds(t, Force(t, f))
  {
    hide Has, Set, Clear;
    ClearDrops(f, ZF | SF | OF, ZF);
    ClearDrops(f, ZF | SF | OF, SF);
    ClearDrops(f, ZF | SF | OF, OF);
  }

  lemma ForceGreaterOrEqual(t: Itype, f: Flags)
    requires t.Jge? || t.Jnl? || t.Cmovge? || t.Setge?
    ensures Holds(t, Force(t, f))
  {
    hide Has, Set, Clear;
    ClearDrops(f, SF | OF, SF);
    ClearDrops(f, SF | OF, OF);
  }

  lemma ForceLess(t: Itype, f: Flags)
    requires t.Jl? || t.Jnge? || t.Cmovl? || t.Setl?
    ensures Holds(t, Force(t, f))
  {
    hide Has, Set, Clear;
    ClearDrops(Set(f, SF), OF, OF);
    SignWithoutOverflow(f);
  }

  /** Forcing makes the condition true for every conditional instruction, whatever the flags were. */
  lemma ForceMakesConditionHold(t: Itype, f: Flags)
    requires IsConditional(t)
    ensures Holds(t, Force(t, f))
  {
    hide Has, Set, Clear;
    if t.Ja? || t.Jnbe? || t.Cmova? || t.Seta? {
      ForceAbove(t, f);
    } else if t.Jg? || t.Jnle? || t.Cmovg? || t.Setg? {
      ForceGreater(t, f);
    } else if t.Jge? || t.Jnl? || t.Cmovge? || t.Setge? {
      ForceGreaterOrEqual(t, f);
    } else if t.Jl? || t.Jnge? || t.Cmovl? || t.Setl? {
      ForceLess(t, f);
    } else {
      SingleMasks(f);
    }
  }

  /** The condition on which each conditional jump of the x86-64 instruction set jumps; nothing else does. */
  predicate Jumps(t: Itype, f: Flags) {
    match t
    case Jo => Has(f, OF)
    case Jno => !Has(f, OF)
    case Jb | Jc | Jnae => Has(f, CF)
    case Jae | Jnb | Jnc => !Has(f, CF)
    case Je | Jz => Has(f, ZF)
    case Jne | Jnz => !Has(f, ZF)
    case Jbe | Jna => Has(f, CF) || Has(f, ZF)
    case Ja | Jnbe => !Has(f, CF) && !Has(f, ZF)
    case Js => Has(f, SF)
    case Jns => !Has(f, SF)
    case Jp | Jpe => Has(f, PF)
    case Jnp | Jpo => !Has(f, PF)
    case Jl | Jnge => Has(f, SF) != Has(f, OF)
    case Jge | Jnl => Has(f, SF) == Has(f, OF)
    case Jle | Jng => Has(f, ZF) || Has(f, SF) != Has(f, OF)
    case Jg | Jnle => !Has(f, ZF) && Has(f, SF) == Has(f, OF)
    case Jcxz => f.rcx & 0xffff == 0
    case Jecxz => f.rcx & 0xffff_ffff == 0
    case Jrcxz => f.rcx == 0
    case _ => false
  }

  lemma BranchConditions(t: Itype, f: Flags)
    requires IsBranch(t)
    ensures Jumps(t, f) <==> Holds(t, f)
  {
    hide Has;
  }

  lemma OnlyBranchesJump(t: Itype, f: Flags)
    requires Jumps(t, f)
    ensures IsBranch(t)
  {
    hide Has, Holds;
  }

  /** The branches are the conditional instructions that jump. */
  lemma BranchesJump(t: Itype, f: Flags)
    ensures Jumps(t, f) <==> IsBranch(t) && Holds(t, f)
  {
    hide *;
    if IsBranch(t) {
      BranchConditions(t, f);
    } else if Jumps(t, f) {
      OnlyBranchesJump(t, f);
    }
  }

  lemma OnlyConditionalsHold(t: Itype, f: Flags)
    requires Holds(t, f)
    ensures IsConditional(t)
  {
    hide Has;
  }

  lemma BranchIsConditional(t: Itype)
    ensures IsBranch(t) ==> IsConditional(t)
  {
    hide IsBranch, IsFlagDependent;
  }

  /** The classifier accepts exactly the instructions that test a condition. */
  lemma ConditionalIff(t: Itype)
    ensures IsConditional(t) <==> exists f :: Holds(t, f)
    ensures IsBranch(t) <==> exists f :: Jumps(t, f)
  {
    BranchIsConditional(t);
    hide *;
    if IsConditional(t) {
      ForceMakesConditionHold(t, Flags(0, 0));
      BranchesJump(t, Force(t, Flags(0, 0)));
    }
    if f :| Jumps(t, f) {
      BranchesJump(t, f);
    }
    if f :| Holds(t, f) {
      OnlyConditionalsHold(t, f);
    }
  }

  const STATUS: bv64 := CF | PF | ZF | SF | OF

  /** g differs from f in status flags at most. */
  predicate SameButStatus(f: Flags, g: Flags) {
    g.eflags & !STATUS == f.eflags & !STATUS && g.rcx == f.rcx
  }

  lemma UpdatesStayInside(f: Flags, m: bv64)
    requires m & STATUS == m
    ensures SameButStatus(f, Set(f, m)) && SameButStatus(f, Clear(f, m))
  {
  }

  lemma SetAndClearStayInside(f: Flags)
    ensures SameButStatus(f, Clear(Set(f, SF), OF)) && SameButStatus(f, f)
  {
  }

  /** Forcing touches only the five status flags or, for the jcxz family, only rcx. */
  lemma ForceTouchesStatusOnly(t: Itype, f: Flags)
    ensures if t.Jcxz? || t.Jecxz? || t.Jrcxz? then Force(t, f) == f.(rcx := 0) else SameButStatus(f, Force(t, f))
  {
    hide SameButStatus, Set, Clear;
    SetAndClearStayInside(f);
    SingleMasksStayInside(f);
    JointMasksStayInside(f);
  }

  lemma JointMasksStayInside(f: Flags)
    ensures SameButStatus(f, Clear(f, CF | ZF)) && SameButStatus(f, Clear(f, SF | OF))
    ensures SameButStatus(f, Clear(f, ZF | SF | OF))
  {
    hide SameButStatus, Set, Clear;
    UpdatesStayInside(f, CF | ZF);
    UpdatesStayInside(f, SF | OF);
    UpdatesStayInside(f, ZF | SF | OF);
  }

  lemma SingleMasksStayInside(f: Flags)
    ensures SameButStatus(f, Set(f, CF)) && SameButStatus(f, Clear(f, CF))
    ensures SameButStatus(f, Set(f, PF)) && SameButStatus(f, Clear(f, PF))
    ensures SameButStatus(f, Set(f, ZF)) && SameButStatus(f, Clear(f, ZF))
    ensures SameButStatus(f, Set(f, SF)) && SameButStatus(f, Clear(f, SF))
    ensures SameButStatus(f, Set(f, OF)) && SameButStatus(f, Clear(f, OF))
  {
    hide SameButStatus, Set, Clear;
    UpdatesStayInside(f, CF);
    UpdatesStayInside(f, PF);
    UpdatesStayInside(f, ZF);
    UpdatesStayInside(f, SF);
    UpdatesStayInside(f, OF);
  }
}
