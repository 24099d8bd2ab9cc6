/** What running a system call inside the tracee leaves behind. */
module Injection {
  import opened Memory
  import opened Tracee
  import opened Connector

  /** Every byte that was mapped is still there and the same. */
  ghost predicate Keeps(m: Mem, m': Mem) {
    forall k | k in m :: k in m' && m'[k] == m[k]
  }

  lemma PlantedSvc(m: Mem, pc: int)
    requires Mapped(m, pc)
    ensures SvcAt(WriteWord(m, pc, SVC), pc)
  {
  }

  lemma MmapCall(regs: Regs)
    ensures CallOf(MmapArgs(regs)) == Call(222, [0, 1024, 7, 0x22, 0xFFFF_FFFF_FFFF_FFFF, 0])
  {
    assert MmapArgs(regs).x[..6] == [0, 1024, 7, 0x22, 0xFFFF_FFFF_FFFF_FFFF, 0];
  }

  lemma PlantAndRestore(m: Mem, pc: int, stepped: Mem, r: int)
    requires Mapped(m, pc) && MapsPage(WriteWord(m, pc, SVC), stepped, r)
    ensures var final := WriteWord(WriteWord(stepped, pc, ReadWord(m, pc)), r, SVC);
            && Keeps(m, final)
            && (forall k | k in final :: k in m || r <= k < r + 4096)
            && Mapped(final, r) && ReadWord(final, r) == SVC
  {
    var ready := WriteWord(m, pc, SVC);
    var restored := WriteWord(stepped, pc, ReadWord(m, pc));
    assert Mapped(stepped, pc);
    forall k | k in m ensures k in restored && restored[k] == m[k] && !(r <= k < r + 4096) {
      assert k in ready;
    }
    forall k | r <= k < r + 8 ensures k in restored { assert k in stepped; }
    ReadBack(restored, r, SVC);
  }

  /** mmap through a planted 'svc', on whatever word pc stands: all registers
      and all mapped bytes end as they began, the call that ran was mmap with
      the arguments given, and the new page starts with an 'svc'. */
  lemma MmapTransparent(c: Link, step: Step)
    requires step.Ran? && KernelStep(MmapReady(c.t), step) && Mapped(c.t.mem, c.t.regs.pc)
    requires !IsError(step.regs.x[0])
    ensures var c' := AfterMmap(c, step);
            && c'.t.regs == c.t.regs && c'.t.slots == c.t.slots
            && c'.t.calls == c.t.calls + [Call(222, [0, 1024, 7, 0x22, 0xFFFF_FFFF_FFFF_FFFF, 0])]
            && Keeps(c.t.mem, c'.t.mem)
            && (forall k | k in c'.t.mem :: k in c.t.mem || c'.privateMemory <= k < c'.privateMemory + 4096)
            && c'.privateMemory == step.regs.x[0]
            && Mapped(c'.t.mem, c'.privateMemory) && ReadWord(c'.t.mem, c'.privateMemory) == SVC
  {
    var pc, r := c.t.regs.pc, step.regs.x[0];
    PlantedSvc(c.t.mem, pc);
    MmapCall(c.t.regs);
    assert MapsPage(MmapReady(c.t).mem, step.mem, r);
    PlantAndRestore(c.t.mem, pc, step.mem, r);
  }

  lemma MmapFresh(c: Link, step: Step, k: int)
    requires step.Ran? && KernelStep(MmapReady(c.t), step) && Mapped(c.t.mem, c.t.regs.pc)
    requires !IsError(step.regs.x[0]) && step.regs.x[0] <= k && k < 8 + step.regs.x[0] as int
    ensures k !in c.t.mem
  {
    PlantedSvc(c.t.mem, c.t.regs.pc);
    assert MapsPage(MmapReady(c.t).mem, step.mem, step.regs.x[0]);
    assert k !in MmapReady(c.t).mem;
  }

  /** The kernel leaves the error numbers' addresses unmapped. */
  ghost predicate TopUnmapped(m: Mem) {
    forall k | k in m :: k <= 0xFFFF_FFFF_FFFF_F000
  }

  /** An mmap that fails leaves the bytes too: the last write meets none. */
  lemma FailedMmapTransparent(c: Link, step: Step)
    requires step.Ran? && KernelStep(MmapReady(c.t), step) && Mapped(c.t.mem, c.t.regs.pc) && TopUnmapped(c.t.mem)
    requires IsError(step.regs.x[0])
    ensures AfterMmap(c, step).t.regs == c.t.regs && AfterMmap(c, step).t.mem == c.t.mem
  {
    PlantedSvc(c.t.mem, c.t.regs.pc);
    assert step.mem == MmapReady(c.t).mem;
    WriteUndone(c.t.mem, c.t.regs.pc, SVC);
    assert step.regs.x[0] !in c.t.mem;
  }

  /** A refused step is the only way mmap shows: registers and code are then as
      planted, unless they already looked so. */
  lemma MmapTransparentExactly(c: Link, step: Step)
    requires KernelStep(MmapReady(c.t), step) && Mapped(c.t.mem, c.t.regs.pc) && TopUnmapped(c.t.mem)
    ensures var c' := AfterMmap(c, step);
            c'.t.regs == c.t.regs && Keeps(c.t.mem, c'.t.mem)
            <==>
            step.Ran? || (MmapArgs(c.t.regs) == c.t.regs && ReadWord(c.t.mem, c.t.regs.pc) == SVC)
  {
    var c' := AfterMmap(c, step);
    var pc := c.t.regs.pc;
    if step.Ran? {
      if IsError(step.regs.x[0]) { FailedMmapTransparent(c, step); } else { MmapTransparent(c, step); }
    } else {
      ReadBack(c.t.mem, pc, SVC);
      if Keeps(c.t.mem, c'.t.mem) {
        HoldsRead(c.t.mem, pc);
        HoldsKept(c.t.mem, c'.t.mem, pc, ReadWord(c.t.mem, pc));
        ReadIs(c'.t.mem, pc, ReadWord(c.t.mem, pc));
      }
      if ReadWord(c.t.mem, pc) == SVC {
        WriteUndone(c.t.mem, pc, SVC);
        WriteSame(c.t.mem, pc);
      }
    }
  }

  lemma WriteSame(m: Mem, a: int)
    ensures WriteWord(m, a, ReadWord(m, a)) == m
  {
    var m' := WriteWord(m, a, ReadWord(m, a));
    forall k | k in m ensures m'[k] == m[k] { }
  }

  /** The private memory holds an 'svc' exactly when mmap did not fail; after a
      failure other than -1 it is nevertheless taken for usable. */
  lemma PrivateMemoryUsable(c: Link, step: Step, addr: u64)
    requires step.Ran? && KernelStep(MmapReady(c.t), step) && Mapped(c.t.mem, c.t.regs.pc) && TopUnmapped(c.t.mem)
    ensures var c' := AfterMmap(c, step);
            && (SvcAt(c'.t.mem, c'.privateMemory) <==> !IsError(step.regs.x[0]))
            && (MprotectGoesAhead(c', addr) <==> step.regs.x[0] != MINUS_ONE && addr != step.regs.x[0])
  {
    var c' := AfterMmap(c, step);
    var r := step.regs.x[0];
    PlantedSvc(c.t.mem, c.t.regs.pc);
    if IsError(r) {
      FailedMmapTransparent(c, step);
      assert r !in c'.t.mem;
    } else {
      MmapTransparent(c, step);
      WordIsSvc(c'.t.mem, r);
    }
  }

  lemma WordIsSvc(m: Mem, a: int)
    requires Mapped(m, a) && ReadWord(m, a) == SVC
    ensures SvcAt(m, a)
  {
  }

  /** With an 'svc' in private memory, mprotect runs number 226 with the
      caller's arguments and leaves registers and memory as they were. */
  lemma MprotectTransparent(c: Link, addr: u64, size: u64, prot: u64, step: Step)
    requires MprotectGoesAhead(c, addr) && step.Ran?
    requires KernelStep(c.t.(regs := MprotectArgs(c.t.regs, c.privateMemory, addr, size, prot)), step)
    requires Mapped(c.t.mem, c.privateMemory) && ReadWord(c.t.mem, c.privateMemory) == SVC
    ensures var c' := AfterMprotect(c, addr, size, prot, step);
            c' == c.(t := c.t.(calls := c.t.calls +
                     [Call(226, [addr, size, prot, c.t.regs.x[3], c.t.regs.x[4], c.t.regs.x[5]])]))
  {
    WordIsSvc(c.t.mem, c.privateMemory);
    var regs := MprotectArgs(c.t.regs, c.privateMemory, addr, size, prot);
    assert regs.x[..6] == [addr, size, prot, c.t.regs.x[3], c.t.regs.x[4], c.t.regs.x[5]];
  }

  /** Here too a refused step is the only way it shows. */
  lemma MprotectTransparentExactly(c: Link, addr: u64, size: u64, prot: u64, step: Step)
    requires MprotectGoesAhead(c, addr)
    requires KernelStep(c.t.(regs := MprotectArgs(c.t.regs, c.privateMemory, addr, size, prot)), step)
    requires Mapped(c.t.mem, c.privateMemory) && ReadWord(c.t.mem, c.privateMemory) == SVC
    ensures var c' := AfterMprotect(c, addr, size, prot, step);
            c'.t.regs == c.t.regs && Keeps(c.t.mem, c'.t.mem)
            <==> step.Ran? || MprotectArgs(c.t.regs, c.privateMemory, addr, size, prot) == c.t.regs
  {
    if step.Ran? { MprotectTransparent(c, addr, size, prot, step); }
  }
}
