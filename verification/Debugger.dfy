/** Software breakpoints: the table of saved words and the commands that patch
    the tracee. */
module Debugger {
  import opened Memory
  import opened Tracee
  import opened Connector

  datatype DebugState = DebugState(link: Link, breakPoints: map<u64, Word>)

  /** What resuming the tracee leads to.  Whatever it did meanwhile is in the
      memory and registers it stops with. */
  datatype Stop =
    | NotResumed
    | Stopped(signal: nat, mem: Mem, regs: Regs)
    | NotStopped

  const SIGTRAP := 5

  function Peek(s: DebugState, a: int): Word { ReadWord(s.link.t.mem, a) }

  function Poked(s: DebugState, a: int, w: Word): DebugState {
    s.(link := s.link.(t := s.link.t.(mem := WriteWord(s.link.t.mem, a, w))))
  }

  /** The saved word of an address is the first one ever read there. */
  function AfterSetBreakPoint(s: DebugState, a: u64): DebugState {
    Poked(s, a, TRAP).(breakPoints := if a in s.breakPoints then s.breakPoints else s.breakPoints[a := Peek(s, a)])
  }

  function AfterContinue(s: DebugState, stop: Stop): DebugState {
    if !stop.Stopped? then s
    else
      var ran := s.(link := s.link.(t := s.link.t.(mem := stop.mem, regs := stop.regs)));
      var pc := stop.regs.pc;
      if stop.signal != SIGTRAP then ran
      else if pc in s.breakPoints then Poked(ran, pc, s.breakPoints[pc])
      else
        var slots := ran.link.t.slots;
        ran.(link := ran.link.(t := ran.link.t.(slots := ZeroedUpTo(slots, LastMatch(slots, pc, |slots|)))))
  }

  class Debugger {
    const connector: Connector
    var breakPoints: map<u64, Word>

    constructor (connector: Connector)
      ensures this.connector == connector && breakPoints == map[]
    {
      this.connector := connector;
      breakPoints := map[];
    }

    function State(): DebugState
      reads this, connector
    {
      DebugState(connector.State(), breakPoints)
    }

    method SetBreakPoint(a: u64)
      modifies this, connector`t
      ensures State() == AfterSetBreakPoint(old(State()), a)
    {
      var data := ReadWord(connector.t.mem, a);
      connector.Poke(a, TRAP);
      if a !in breakPoints { // map::insert
        breakPoints := breakPoints[a := data];
      }
    }

    method Continue(stop: Stop)
      requires connector.Valid()
      modifies connector`t
      ensures connector.Valid()
      ensures State() == AfterContinue(old(State()), stop)
    {
      if stop.NotResumed? {
        return;
      }
      if stop.Stopped? {
        connector.t := connector.t.(mem := stop.mem, regs := stop.regs);
        if stop.signal == SIGTRAP {
          var regs := connector.t.regs;
          if regs.pc in breakPoints {
            connector.Poke(regs.pc, breakPoints[regs.pc]);
          } else {
            connector.ClearSlotsAt(regs.pc);
          }
        }
      }
    }

    /** mprot checks its three arguments for the parser's error value first. */
    method MprotMem(addr: u64, size: u64, prot: u64, step: Step)
      modifies connector`t
      ensures State() == old(State()).(link :=
        if addr == MINUS_ONE || size == MINUS_ONE || prot == MINUS_ONE then old(State()).link
        else AfterMprotect(old(State()).link, addr, size, prot, step))
    {
      if addr == MINUS_ONE || size == MINUS_ONE || prot == MINUS_ONE {
        return;
      }
      var result := connector.MprotectMemory(addr, size, prot, step);
    }
  }
}
