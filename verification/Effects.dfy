/** What each command changes and what it leaves alone, in plain numbers, and
    what registers a run of commands leaves. */
module Effects {
  import opened Memory
  import opened Tracee
  import opened Connector
  import opened Debugger
  import opened Overlay

  /** m' is m with these bytes from a on, if all eight are mapped. */
  ghost predicate Patch(m: Mem, m': Mem, a: int, bytes: seq<byte>) {
    && |bytes| == 8 && m'.Keys == m.Keys
    && forall k | k in m :: m'[k] == if Mapped(m, a) && a <= k < a + 8 then bytes[k - a] else m[k]
  }

  /** What a stop leaves.  At a breakpoint the saved bytes are written and pc
      stays; any other stop leaves the bytes as it found them. */
  lemma StopEffects(s: DebugState, stop: Stop)
    ensures var s' := AfterContinue(s, stop);
            && (!stop.Stopped? ==> s' == s)
            && (stop.Stopped? ==>
                  && s'.link.t.regs == stop.regs && s'.link.t.calls == s.link.t.calls
                  && s'.link.privateMemory == s.link.privateMemory && s'.breakPoints == s.breakPoints
                  && (stop.signal == 5 && stop.regs.pc in s.breakPoints ==>
                        && s'.link.t.slots == s.link.t.slots
                        && Patch(stop.mem, s'.link.t.mem, stop.regs.pc, s.breakPoints[stop.regs.pc]))
                  && (stop.signal != 5 || stop.regs.pc !in s.breakPoints ==> s'.link.t.mem == stop.mem)
                  && (stop.signal != 5 ==> s'.link.t.slots == s.link.t.slots))
  {
  }

  lemma TrapPatch(m: Mem, a: int)
    ensures Patch(m, WriteWord(m, a, TRAP), a, [0x00, 0x00, 0x20, 0xD4, 0, 0, 0, 0])
  {
  }

  /** w is what stands at a, or all ones if a byte there is unmapped. */
  ghost predicate IsWordAt(m: Mem, a: int, w: Word) {
    if Mapped(m, a) then forall k | a <= k < a + 8 :: w[k - a] == m[k]
    else w == [255, 255, 255, 255, 255, 255, 255, 255]
  }

  lemma ReadIsWordAt(m: Mem, a: int)
    ensures IsWordAt(m, a, ReadWord(m, a))
  {
  }

  /** Setting a breakpoint writes 'break #0' and four zeros, and remembers what
      stood there if the address is new. */
  lemma SetBpEffects(s: DebugState, a: u64)
    ensures var s', m := After(s, SetBp(a)), s.link.t.mem;
            && Patch(m, s'.link.t.mem, a, [0x00, 0x00, 0x20, 0xD4, 0, 0, 0, 0])
            && s' == DebugState(s.link.(t := s.link.t.(mem := s'.link.t.mem)), s'.breakPoints)
            && s'.breakPoints.Keys == s.breakPoints.Keys + {a}
            && (forall b | b in s.breakPoints :: s'.breakPoints[b] == s.breakPoints[b])
            && (a !in s.breakPoints ==> IsWordAt(m, a, s'.breakPoints[a]))
  {
    TrapPatch(s.link.t.mem, a);
    ReadIsWordAt(s.link.t.mem, a);
  }

  /** A hardware breakpoint touches one slot and nothing else. */
  lemma SetHwEffects(s: DebugState, a: u64, num: u64, accepted: bool)
    ensures var s' := After(s, SetHw(a, num, accepted));
            var slots, slots' := s.link.t.slots, s'.link.t.slots;
            && s' == s.(link := s.link.(t := s.link.t.(slots := slots'))) && |slots'| == |slots|
            && (forall i | 0 <= i < |slots| ::
                  slots'[i] == if i == num && accepted then Slot(4 * (a / 4), 0x781) else slots[i])
  {
    assert a - a % 4 == 4 * (a / 4);
  }

  predicate HasByte(m: Mem, k: int, b: byte) { k in m && m[k] == b }

  /** 'svc #0' stands at pc. */
  predicate AtSvc(t: Process) {
    var pc := t.regs.pc as int;
    && HasByte(t.mem, pc, 0x01) && HasByte(t.mem, pc + 1, 0x00)
    && HasByte(t.mem, pc + 2, 0x00) && HasByte(t.mem, pc + 3, 0xD4)
  }

  lemma AtSvcIs(t: Process)
    ensures AtSvc(t) <==> SvcAt(t.mem, t.regs.pc)
  {
    var pc := t.regs.pc as int;
    if SvcAt(t.mem, t.regs.pc) {
      assert pc in t.mem && pc + 1 in t.mem && pc + 2 in t.mem && pc + 3 in t.mem;
    }
    if AtSvc(t) {
      forall k | pc <= k < pc + 4 ensures k in t.mem && t.mem[k] == SVC[k - pc] {
        assert HasByte(t.mem, k, SVC[k - pc]);
      }
    }
  }

  /** A step that runs leaves the memory and registers it stops with, and makes
      a system call exactly at an 'svc'. */
  lemma NextEffects(s: DebugState, step: Step)
    ensures var s', t := After(s, Next(step)), s.link.t;
            && s'.breakPoints == s.breakPoints && s'.link.privateMemory == s.link.privateMemory
            && (step.Refused? ==> s'.link.t == t)
            && (step.Ran? ==>
                  var call := Call(t.regs.x[8], t.regs.x[..6]);
                  s'.link.t == Process(step.mem, step.regs, t.slots, t.calls + if AtSvc(t) then [call] else []))
  {
    AtSvcIs(s.link.t);
  }

  /** A refused mmap leaves 'svc #0' at pc and the arguments in x0 to x5 and x8. */
  lemma RefusedMmapEffects(s: DebugState)
    ensures var s', t := After(s, Mmap(Refused)), s.link.t;
            var x, x' := t.regs.x, s'.link.t.regs.x;
            && s'.breakPoints == s.breakPoints && s'.link.privateMemory == s.link.privateMemory
            && s'.link.t == Process(s'.link.t.mem, t.regs.(x := x'), t.slots, t.calls)
            && Patch(t.mem, s'.link.t.mem, t.regs.pc, [0x01, 0x00, 0x00, 0xD4, 0, 0, 0, 0])
            && x'[..9] == [0, 1024, 7, 0x22, 0xFFFF_FFFF_FFFF_FFFF, 0, x[6], x[7], 222] && x'[9..] == x[9..]
  {
  }

  /** mprotect is not tried without private memory or on it; refused, it leaves
      its arguments in pc, x0 to x2 and x8. */
  lemma RefusedMprotEffects(s: DebugState, addr: u64, size: u64, prot: u64)
    ensures var s', t := After(s, Mprot(addr, size, prot, Refused)), s.link.t;
            var x, x', pm := t.regs.x, s'.link.t.regs.x, s.link.privateMemory;
            if 0xFFFF_FFFF_FFFF_FFFF in [addr, size, prot, pm] || addr == pm then s' == s
            else
              && s' == s.(link := s.link.(t := t.(regs := Regs(x', t.regs.sp, pm, t.regs.pstate))))
              && x'[..9] == [addr, size, prot] + x[3..8] + [226] && x'[9..] == x[9..]
  {
  }

  // ---- registers over runs ----

  /** The tracee ran and stopped with these registers. */
  function StoppedWith(e: Event): Option<Regs> {
    match e
    case Cont(Stopped(_, _, regs)) => Some(regs)
    case Next(Ran(_, regs)) => Some(regs)
    case _ => None
  }

  /** The last command that let the tracee run, or -1. */
  function LastRan(es: seq<Event>): (p: int)
    ensures -1 <= p < |es| && (p >= 0 ==> StoppedWith(es[p]).Some?)
    ensures forall k | p < k < |es| :: StoppedWith(es[k]).None?
  {
    if es == [] then -1
    else if StoppedWith(es[|es| - 1]).Some? then |es| - 1
    else LastRan(es[..|es| - 1])
  }

  predicate NotRefused(e: Event) {
    Injects(e) ==> e.step.Ran?
  }

  lemma RegsAfter(s: DebugState, e: Event)
    requires NotRefused(e)
    ensures After(s, e).link.t.regs == if StoppedWith(e).Some? then StoppedWith(e).value else s.link.t.regs
  {
  }

  /** Over any run in which no injected step is refused, the registers are those
      the tracee last stopped with: hitting breakpoints, setting them and
      injected calls never move them. */
  lemma {:induction false} RegistersOverRuns(s: DebugState, es: seq<Event>)
    requires forall k | 0 <= k < |es| :: NotRefused(es[k])
    ensures var p := LastRan(es);
            Run(s, es).link.t.regs == if p == -1 then s.link.t.regs else StoppedWith(es[p]).value
    decreases |es|
  {
    if es != [] {
      var n := |es| - 1;
      RegistersOverRuns(s, es[..n]);
      RunLast(s, es);
      RegsAfter(Run(s, es[..n]), es[n]);
    }
  }
}
