/** The stopped tracee as ptrace shows it: memory, registers, hardware
    breakpoint slots, and the system calls it has made while being stepped. */
module Tracee {
  import opened Memory

  /** user_pt_regs. */
  type GpRegs = x: seq<u64> | |x| == 31
    witness [0,0,0,0,0,0,0,0,0,0,0,0,0,0,0,0,0,0,0,0,0,0,0,0,0,0,0,0,0,0,0]
  datatype Regs = Regs(x: GpRegs, sp: u64, pc: u64, pstate: u64)

  /** One hardware breakpoint register pair. */
  datatype Slot = Slot(addr: u64, ctrl: int)
  const ZERO_SLOT := Slot(0, 0)

  datatype Call = Call(number: u64, args: seq<u64>)

  datatype Process = Process(mem: Mem, regs: Regs, slots: seq<Slot>, calls: seq<Call>)

  /** 'break #0' and 'svc #0' as the eight bytes POKETEXT writes. */
  const TRAP: Word := [0x00, 0x00, 0x20, 0xD4, 0, 0, 0, 0]
  const SVC: Word := [0x01, 0x00, 0x00, 0xD4, 0, 0, 0, 0]

  const MINUS_ONE: u64 := 0xFFFF_FFFF_FFFF_FFFF
  const MMAP: u64 := 222
  const MPROTECT: u64 := 226

  lemma PatchValues()
    ensures Value(TRAP) == 0xD4200000 && Value(SVC) == 0xD4000001
  {
  }

  /** An instruction is four bytes. */
  predicate SvcAt(m: Mem, pc: int) {
    forall k | pc <= k < pc + 4 :: k in m && m[k] == SVC[k - pc]
  }

  function CallOf(regs: Regs): Call {
    Call(regs.x[8], regs.x[..6])
  }

  /** What PTRACE_SINGLESTEP meets: it is refused, or one instruction runs and
      leaves this memory and these registers. */
  datatype Step = Refused | Ran(mem: Mem, regs: Regs)

  /** doSingleStep. */
  function AfterStep(t: Process, step: Step): Process {
    match step
    case Refused => t
    case Ran(mem, regs) =>
      Process(mem, regs, t.slots, if SvcAt(t.mem, t.regs.pc) then t.calls + [CallOf(t.regs)] else t.calls)
  }

  /** Results from -4095 up are error numbers. */
  predicate IsError(r: u64) {
    r > 0xFFFF_FFFF_FFFF_F000
  }

  /** m' is m with a zeroed page at r, where nothing was mapped before. */
  ghost predicate MapsPage(m: Mem, m': Mem, r: int) {
    && (forall k | r <= k < r + 4096 :: k !in m && k in m' && m'[k] == 0)
    && (forall k | k in m :: k in m' && m'[k] == m[k])
    && (forall k | k in m' :: k in m || r <= k < r + 4096)
  }

  /** How Linux runs a stepped 'svc': only x0 and pc change; mmap either fails
      or maps a fresh page; mprotect leaves the bytes alone. */
  ghost predicate KernelStep(t: Process, step: Step) {
    step.Ran? && SvcAt(t.mem, t.regs.pc) ==>
      && t.regs.pc + 4 <= MINUS_ONE
      && step.regs == Regs(t.regs.x[0 := step.regs.x[0]], t.regs.sp, t.regs.pc + 4, t.regs.pstate)
      && (t.regs.x[8] == MMAP ==>
            if IsError(step.regs.x[0]) then step.mem == t.mem
            else MapsPage(t.mem, step.mem, step.regs.x[0]))
      && (t.regs.x[8] == MPROTECT ==> step.mem == t.mem)
  }
}
