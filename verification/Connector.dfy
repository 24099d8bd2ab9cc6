/** The ptrace connector: running system calls inside the tracee, and the
    hardware breakpoint slots. */
module Connector {
  import opened Memory
  import opened Tracee

  /** What the connector knows and what it controls. */
  datatype Link = Link(t: Process, privateMemory: u64)

  function MmapArgs(regs: Regs): Regs {
    regs.(x := regs.x[8 := MMAP][0 := 0][1 := 1024][2 := 7][3 := 0x22][4 := MINUS_ONE][5 := 0])
  }

  function MprotectArgs(regs: Regs, pc: u64, addr: u64, size: u64, prot: u64): Regs {
    regs.(pc := pc, x := regs.x[8 := MPROTECT][0 := addr][1 := size][2 := prot])
  }

  /** With 'svc' planted at pc and the mmap arguments loaded. */
  function MmapReady(t: Process): Process {
    t.(mem := WriteWord(t.mem, t.regs.pc, SVC), regs := MmapArgs(t.regs))
  }

  /** allocateMemoryInChild; a refused step leaves everything as planted. */
  function AfterMmap(c: Link, step: Step): Link {
    var ready := MmapReady(c.t);
    match step
    case Refused => c.(t := ready)
    case Ran(mem, regs) =>
      var restored := WriteWord(mem, c.t.regs.pc, ReadWord(c.t.mem, c.t.regs.pc));
      Link(AfterStep(ready, step).(mem := WriteWord(restored, regs.x[0], SVC), regs := c.t.regs), regs.x[0])
  }

  predicate MprotectGoesAhead(c: Link, addr: u64) {
    c.privateMemory != MINUS_ONE && addr != c.privateMemory
  }

  /** mprotectMemory; a refused step leaves the arguments in the registers. */
  function AfterMprotect(c: Link, addr: u64, size: u64, prot: u64, step: Step): Link {
    if !MprotectGoesAhead(c, addr) then c
    else
      var ready := c.t.(regs := MprotectArgs(c.t.regs, c.privateMemory, addr, size, prot));
      if step.Refused? then c.(t := ready)
      else c.(t := AfterStep(ready, step).(regs := c.t.regs))
  }

  // ---- hardware slots ----

  const HW_CONTROL := 0x781 // byte mask 0xf << 7, enable bit

  /** setHwBreakpoint, when the kernel accepts the new slots or not. */
  function AfterSetHw(slots: seq<Slot>, addr: u64, num: u64, accepted: bool): (r: seq<Slot>)
    ensures |r| == |slots|
  {
    if num < |slots| && accepted then slots[num := Slot(addr - addr % 4, HW_CONTROL)] else slots
  }

  /** SETREGSET with a buffer cut off after slot n: only slots 0..n are written. */
  function PrefixWritten(slots: seq<Slot>, buffer: seq<Slot>, n: nat): seq<Slot>
    requires n < |slots| && n < |buffer|
  {
    buffer[..n + 1] + slots[n + 1..]
  }

  /** The highest of the first n slots with this address, or -1. */
  function LastMatch(slots: seq<Slot>, pc: u64, n: nat): (r: int)
    requires n <= |slots|
    ensures -1 <= r < n
    ensures r >= 0 ==> slots[r].addr == pc
    ensures forall i | r < i < n :: slots[i].addr != pc
  {
    if n == 0 then -1
    else if slots[n - 1].addr == pc then n - 1
    else LastMatch(slots, pc, n - 1)
  }

  /** The slots when those up to and including last are zero. */
  function ZeroedUpTo(slots: seq<Slot>, last: int): seq<Slot>
    requires last < |slots|
  {
    seq(|slots|, i requires 0 <= i < |slots| => if i <= last then ZERO_SLOT else slots[i])
  }

  class Connector {
    var t: Process
    var privateMemory: u64
    var hwBreakpoints: nat

    constructor Init(t: Process)
      ensures State() == Link(t, MINUS_ONE) && hwBreakpoints == |t.slots|
    {
      this.t := t;
      privateMemory := MINUS_ONE;
      hwBreakpoints := |t.slots|;
    }

    function State(): Link
      reads this
    {
      Link(t, privateMemory)
    }

    ghost predicate Valid()
      reads this
    {
      hwBreakpoints == |t.slots| <= 16
    }

    method Poke(a: u64, w: Word)
      modifies this`t
      ensures t == old(t).(mem := WriteWord(old(t).mem, a, w))
    {
      t := t.(mem := WriteWord(t.mem, a, w));
    }

    method SetRegisters(regs: Regs)
      modifies this`t
      ensures t == old(t).(regs := regs)
    {
      t := t.(regs := regs);
    }

    method DoSingleStep(step: Step) returns (ok: bool)
      modifies this`t
      ensures ok == step.Ran? && t == AfterStep(old(t), step)
    {
      ok := step.Ran?;
      t := AfterStep(t, step);
    }

    method AllocateMemoryInChild(step: Step) returns (r: u64)
      modifies this`t, this`privateMemory
      ensures State() == AfterMmap(old(State()), step)
      ensures r == if step.Refused? then MINUS_ONE else privateMemory
    {
      var regs := t.regs;
      var regsSave := regs;

      var origInst := ReadWord(t.mem, regs.pc);
      Poke(regs.pc, SVC);

      regs := regs.(x := regs.x[8 := MMAP]);
      regs := regs.(x := regs.x[0 := 0]);
      regs := regs.(x := regs.x[1 := 1024]);
      regs := regs.(x := regs.x[2 := 7]);
      regs := regs.(x := regs.x[3 := 0x22]);
      regs := regs.(x := regs.x[4 := MINUS_ONE]);
      regs := regs.(x := regs.x[5 := 0]);
      SetRegisters(regs);

      var ok := DoSingleStep(step);
      if !ok {
        return MINUS_ONE;
      }

      regs := t.regs;
      privateMemory := regs.x[0];

      SetRegisters(regsSave);
      Poke(regsSave.pc, origInst);

      Poke(privateMemory, SVC);
      r := privateMemory;
    }

    method MprotectMemory(addr: u64, size: u64, prot: u64, step: Step) returns (r: u64)
      modifies this`t
      ensures State() == AfterMprotect(old(State()), addr, size, prot, step)
      ensures r == if MprotectGoesAhead(old(State()), addr) && step.Ran? then step.regs.x[0] else MINUS_ONE
    {
      if privateMemory == MINUS_ONE {
        return MINUS_ONE;
      }
      if addr == privateMemory {
        return MINUS_ONE;
      }

      var regs := t.regs;
      var regsSave := regs;
      regs := regs.(pc := privateMemory);
      regs := regs.(x := regs.x[8 := MPROTECT]);
      regs := regs.(x := regs.x[0 := addr]);
      regs := regs.(x := regs.x[1 := size]);
      regs := regs.(x := regs.x[2 := prot]);
      SetRegisters(regs);

      var ok := DoSingleStep(step);
      if !ok {
        return MINUS_ONE;
      }

      regs := t.regs;
      r := regs.x[0];
      SetRegisters(regsSave);
    }

    /** Slot num changes and no other, although the whole prefix is rewritten. */
    method SetHwBreakpoint(addr: u64, num: u64, accepted: bool) returns (ok: bool)
      requires Valid()
      modifies this`t
      ensures Valid()
      ensures ok == (num < hwBreakpoints && accepted)
      ensures t == old(t).(slots := AfterSetHw(old(t).slots, addr, num, accepted))
    {
      if num >= hwBreakpoints {
        return false;
      }
      var buffer := t.slots;
      buffer := buffer[num := Slot(addr - addr % 4, HW_CONTROL)];
      if !accepted {
        return false;
      }
      ghost var slots := t.slots;
      t := t.(slots := PrefixWritten(t.slots, buffer, num));
      assert t.slots == slots[num := Slot(addr - addr % 4, HW_CONTROL)];
      ok := true;
    }

    /** As written, clearing slot idx zeroes every slot below it as well. */
    method ClearHwBreakpoint(idx: int)
      requires Valid() && 0 <= idx
      modifies this`t
      ensures Valid()
      ensures t == old(t).(slots := if idx < hwBreakpoints then ZeroedUpTo(old(t).slots, idx) else old(t).slots)
    {
      if idx >= hwBreakpoints {
        return;
      }
      var buffer := seq(16, _ => ZERO_SLOT);
      ghost var slots := t.slots;
      t := t.(slots := PrefixWritten(t.slots, buffer, idx));
      assert t.slots == ZeroedUpTo(slots, idx);
    }

    /** The loop of Continue over a copy of the slots. */
    method ClearSlotsAt(pc: u64)
      requires Valid()
      modifies this`t
      ensures Valid()
      ensures t == old(t).(slots := ZeroedUpTo(old(t).slots, LastMatch(old(t).slots, pc, |old(t).slots|)))
    {
      var hregs := t.slots;
      assert hregs == ZeroedUpTo(hregs, -1);
      for i := 0 to hwBreakpoints
        invariant Valid()
        invariant t == old(t).(slots := ZeroedUpTo(hregs, LastMatch(hregs, pc, i)))
      {
        if pc == hregs[i].addr {
          assert ZeroedUpTo(ZeroedUpTo(hregs, LastMatch(hregs, pc, i)), i) == ZeroedUpTo(hregs, i);
          ClearHwBreakpoint(i);
        }
      }
    }
  }

  /** After the clearing loop no armed slot holds the stopped pc and every slot
      above the highest match is as it was; it clears the matching slots and
      nothing else exactly when no armed slot for another address lies below a
      matching one. */
  lemma ClearingAtPc(slots: seq<Slot>, pc: u64)
    ensures var last := LastMatch(slots, pc, |slots|);
            var r := ZeroedUpTo(slots, last);
            && (forall i | 0 <= i < |slots| && r[i] != ZERO_SLOT :: r[i].addr != pc && r[i] == slots[i])
            && (forall i | last < i < |slots| :: r[i] == slots[i])
            && ((forall i | 0 <= i < |slots| :: r[i] == if slots[i].addr == pc then ZERO_SLOT else slots[i])
                <==>
                (forall i, j | 0 <= i < j < |slots| && slots[j].addr == pc && slots[i].addr != pc ::
                   slots[i] == ZERO_SLOT))
  {
    var last := LastMatch(slots, pc, |slots|);
    var r := ZeroedUpTo(slots, last);
    if forall i | 0 <= i < |slots| :: r[i] == if slots[i].addr == pc then ZERO_SLOT else slots[i] {
      forall i, j | 0 <= i < j < |slots| && slots[j].addr == pc && slots[i].addr != pc
        ensures slots[i] == ZERO_SLOT
      {
        assert j <= last && r[i] == ZERO_SLOT;
      }
    }
  }
}
