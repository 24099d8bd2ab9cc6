/** Over every run, the tracee's code is the original image plus exactly the
    armed patches. */
module Overlay {
  import opened Memory
  import opened Tracee
  import opened Connector
  import opened Injection
  import opened Debugger

  datatype Event =
    | SetBp(addr: u64)
    | SetHw(addr: u64, num: u64, accepted: bool)
    | Cont(stop: Stop)
    | Next(step: Step)
    | Mmap(step: Step)
    | Mprot(addr: u64, size: u64, prot: u64, step: Step)

  function After(s: DebugState, e: Event): DebugState {
    match e
    case SetBp(a) => AfterSetBreakPoint(s, a)
    case SetHw(a, num, accepted) =>
      s.(link := s.link.(t := s.link.t.(slots := AfterSetHw(s.link.t.slots, a, num, accepted))))
    case Cont(stop) => AfterContinue(s, stop)
    case Next(step) => s.(link := s.link.(t := AfterStep(s.link.t, step)))
    case Mmap(step) => s.(link := AfterMmap(s.link, step))
    case Mprot(addr, size, prot, step) =>
      if addr == MINUS_ONE || size == MINUS_ONE || prot == MINUS_ONE then s
      else s.(link := AfterMprotect(s.link, addr, size, prot, step))
  }

  /** The code without patches, and the addresses whose patch is in place. */
  datatype Plan = Plan(image: Mem, armed: set<u64>)

  function PlanAfter(p: Plan, s: DebugState, e: Event): Plan {
    match e
    case SetBp(a) => p.(armed := p.armed + {a})
    case Cont(stop) =>
      if stop.Stopped? && stop.signal == SIGTRAP && stop.regs.pc in s.breakPoints
      then p.(armed := p.armed - {stop.regs.pc}) else p
    case Mmap(step) => if step.Ran? then p.(image := StoreWord(p.image, step.regs.x[0], SVC)) else p
    case _ => p
  }

  ghost predicate Uncovered(armed: set<u64>, k: int) {
    forall a | a in armed :: !(a <= k < a + 8)
  }

  /** Outside the patches, memory shows the image's byte k. */
  ghost predicate Shows(m: Mem, p: Plan, k: int)
    requires k in p.image
  {
    k in m && (Uncovered(p.armed, k) ==> m[k] == p.image[k])
  }

  /** Memory is the image, with the trap word at each armed address. */
  ghost predicate Patched(m: Mem, p: Plan) {
    && (forall k {:trigger Shows(m, p, k)} | k in p.image :: Shows(m, p, k))
    && (forall a | a in p.armed :: Holds(m, a, TRAP))
  }

  /** The table holds the image's word at every address ever set. */
  ghost predicate Saved(s: DebugState, p: Plan) {
    && p.armed <= s.breakPoints.Keys
    && (forall a | a in s.breakPoints :: Holds(p.image, a, s.breakPoints[a]))
    && (forall a, b | a in s.breakPoints && b in s.breakPoints && a != b :: Apart(a, b))
  }

  ghost predicate SvcReady(s: DebugState, p: Plan) {
    var pm := s.link.privateMemory;
    pm != MINUS_ONE ==> Holds(p.image, pm, SVC) && forall a | a in s.breakPoints :: Apart(a, pm)
  }

  ghost predicate Overlaid(s: DebugState, p: Plan) {
    Patched(s.link.t.mem, p) && Saved(s, p) && SvcReady(s, p)
  }

  ghost predicate KeepsCode(m: Mem, m': Mem, image: Mem) {
    forall k | k in image && k in m :: k in m' && m'[k] == m[k]
  }

  /** A breakpoint goes on code, clear of other patches; the tracee does not
      write its code; injected system calls succeed. */
  ghost predicate Allowed(s: DebugState, p: Plan, e: Event) {
    var t := s.link.t;
    match e
    case SetBp(a) =>
      && Mapped(p.image, a)
      && (forall b | b in s.breakPoints :: a == b || Apart(a, b))
      && (s.link.privateMemory != MINUS_ONE ==> Apart(a, s.link.privateMemory))
    case SetHw(_, _, _) => true
    case Cont(stop) => stop.Stopped? ==> KeepsCode(t.mem, stop.mem, p.image)
    case Next(step) => step.Ran? ==> KeepsCode(t.mem, step.mem, p.image)
    case Mmap(step) =>
      && step.Ran? && KernelStep(MmapReady(t), step) && !IsError(step.regs.x[0])
      && Mapped(t.mem, t.regs.pc)
    case Mprot(addr, size, prot, step) =>
      MprotectGoesAhead(s.link, addr) ==>
        step.Ran? && KernelStep(t.(regs := MprotectArgs(t.regs, s.link.privateMemory, addr, size, prot)), step)
  }

  // ---- one step ----

  lemma ShowsArmed(m: Mem, p: Plan, a: u64, k: int)
    requires k in p.image && Shows(m, p, k)
    ensures Shows(WriteWord(m, a, TRAP), p.(armed := p.armed + {a}), k)
  {
    if Uncovered(p.armed + {a}, k) {
      assert a in p.armed + {a};
      forall b | b in p.armed ensures !(b <= k < b + 8) { assert b in p.armed + {a}; }
    }
  }

  lemma ShowsDisarmed(m: Mem, p: Plan, a: u64, w: Word, k: int)
    requires k in p.image && Shows(m, p, k) && Holds(p.image, a, w) && Mapped(m, a)
    ensures Shows(WriteWord(m, a, w), p.(armed := p.armed - {a}), k)
  {
    if a <= k < a + 8 {
      assert ByteIs(p.image, a, w, k);
    } else if Uncovered(p.armed - {a}, k) {
      forall b | b in p.armed ensures !(b <= k < b + 8) {
        assert b == a || b in p.armed - {a};
      }
    }
  }

  lemma CodeMapped(m: Mem, p: Plan, a: int, w: Word)
    requires Patched(m, p) && Holds(p.image, a, w)
    ensures Mapped(m, a)
  {
    forall k | a <= k < a + 8 ensures k in m {
      assert ByteIs(p.image, a, w, k);
      assert Shows(m, p, k);
    }
  }

  lemma ArmOne(m: Mem, p: Plan, a: u64, w: Word)
    requires Patched(m, p) && Holds(p.image, a, w) && forall b | b in p.armed :: a == b || Apart(a, b)
    ensures Patched(WriteWord(m, a, TRAP), p.(armed := p.armed + {a}))
  {
    CodeMapped(m, p, a, w);
    forall k | k in p.image ensures Shows(WriteWord(m, a, TRAP), p.(armed := p.armed + {a}), k) {
      ShowsArmed(m, p, a, k);
    }
    forall b | b in p.armed + {a} ensures Holds(WriteWord(m, a, TRAP), b, TRAP) {
      if b == a { HoldsWritten(m, a, TRAP); } else { HoldsElsewhere(m, a, TRAP, b, TRAP); }
    }
  }

  lemma DisarmOne(m: Mem, p: Plan, a: u64, w: Word)
    requires Patched(m, p) && Holds(p.image, a, w) && forall b | b in p.armed :: a == b || Apart(a, b)
    ensures Patched(WriteWord(m, a, w), p.(armed := p.armed - {a}))
  {
    CodeMapped(m, p, a, w);
    forall k | k in p.image ensures Shows(WriteWord(m, a, w), p.(armed := p.armed - {a}), k) {
      ShowsDisarmed(m, p, a, w, k);
    }
    forall b | b in p.armed - {a} ensures Holds(WriteWord(m, a, w), b, TRAP) {
      HoldsElsewhere(m, a, w, b, TRAP);
    }
  }

  /** Where no patch reaches, a word of the image is a word of memory. */
  lemma ImageWordShows(m: Mem, p: Plan, a: int, w: Word)
    requires Patched(m, p) && Holds(p.image, a, w) && forall b | b in p.armed :: Apart(b, a)
    ensures Holds(m, a, w)
  {
    forall k | a <= k < a + 8 ensures ByteIs(m, a, w, k) {
      assert ByteIs(p.image, a, w, k);
      assert Shows(m, p, k);
      forall b | b in p.armed ensures !(b <= k < b + 8) { assert Apart(b, a); }
    }
  }

  lemma CodeKept(m: Mem, m': Mem, p: Plan)
    requires Patched(m, p) && KeepsCode(m, m', p.image)
    requires forall a | a in p.armed :: Mapped(p.image, a)
    ensures Patched(m', p)
  {
    forall k | k in p.image ensures Shows(m', p, k) { assert Shows(m, p, k); }
    forall a | a in p.armed ensures Holds(m', a, TRAP) {
      assert Mapped(p.image, a);
      HoldsKept(m, m', a, TRAP);
    }
  }

  lemma ArmedMapped(s: DebugState, p: Plan)
    requires Saved(s, p)
    ensures forall a | a in p.armed :: Mapped(p.image, a)
  {
    forall a | a in p.armed ensures Mapped(p.image, a) { ReadIs(p.image, a, s.breakPoints[a]); }
  }

  lemma SetBpKeepsOverlay(s: DebugState, p: Plan, a: u64)
    requires Overlaid(s, p) && Allowed(s, p, SetBp(a))
    ensures Overlaid(AfterSetBreakPoint(s, a), p.(armed := p.armed + {a}))
  {
    var m, w := s.link.t.mem, ReadWord(p.image, a);
    HoldsRead(p.image, a);
    ArmOne(m, p, a, w);
    if a !in s.breakPoints {
      ImageWordShows(m, p, a, w);
      ReadIs(m, a, w);
    }
  }

  lemma ContKeepsOverlay(s: DebugState, p: Plan, stop: Stop)
    requires Overlaid(s, p) && Allowed(s, p, Cont(stop))
    ensures Overlaid(AfterContinue(s, stop), PlanAfter(p, s, Cont(stop)))
  {
    if stop.Stopped? {
      ArmedMapped(s, p);
      CodeKept(s.link.t.mem, stop.mem, p);
      var pc := stop.regs.pc;
      if stop.signal == SIGTRAP && pc in s.breakPoints { DisarmOne(stop.mem, p, pc, s.breakPoints[pc]); }
    }
  }

  /** Fresh bytes join the image without touching what it has. */
  lemma ImageGrows(m: Mem, m': Mem, p: Plan, r: int)
    requires Patched(m, p) && Keeps(m, m') && Holds(m', r, SVC)
    requires forall k | r <= k < r + 8 :: k !in m
    ensures Patched(m', p.(image := StoreWord(p.image, r, SVC)))
    ensures forall a, w | Holds(p.image, a, w) :: Holds(StoreWord(p.image, r, SVC), a, w) && Apart(a, r)
    ensures forall k | k in p.image :: StoreWord(p.image, r, SVC)[k] == p.image[k]
    ensures Holds(StoreWord(p.image, r, SVC), r, SVC)
  {
    var image' := StoreWord(p.image, r, SVC);
    forall k | k in p.image ensures !(r <= k < r + 8) { assert Shows(m, p, k); }
    forall k | k in image' ensures Shows(m', p.(image := image'), k) {
      if r <= k < r + 8 { assert ByteIs(m', r, SVC, k); } else { assert Shows(m, p, k); }
    }
    forall a | a in p.armed ensures Holds(m', a, TRAP) { HoldsKept(m, m', a, TRAP); }
    forall a, w | Holds(p.image, a, w) ensures Holds(image', a, w) && Apart(a, r) {
      HoldsKept(p.image, image', a, w);
      assert ByteIs(p.image, a, w, a) && ByteIs(p.image, a, w, a + 7);
    }
    forall k | r <= k < r + 8 ensures ByteIs(image', r, SVC, k) { }
  }

  lemma FreshSvcKeepsOverlay(s: DebugState, s': DebugState, p: Plan)
    requires Overlaid(s, p) && s'.breakPoints == s.breakPoints
    requires Keeps(s.link.t.mem, s'.link.t.mem) && Holds(s'.link.t.mem, s'.link.privateMemory, SVC)
    requires forall k: int | s'.link.privateMemory <= k && k < 8 + s'.link.privateMemory as int :: k !in s.link.t.mem
    ensures Overlaid(s', p.(image := StoreWord(p.image, s'.link.privateMemory, SVC)))
    ensures forall k | k in p.image :: StoreWord(p.image, s'.link.privateMemory, SVC)[k] == p.image[k]
  {
    ImageGrows(s.link.t.mem, s'.link.t.mem, p, s'.link.privateMemory);
  }

  lemma MmapKeepsOverlay(s: DebugState, p: Plan, step: Step)
    requires Overlaid(s, p) && Allowed(s, p, Mmap(step))
    ensures Overlaid(After(s, Mmap(step)), PlanAfter(p, s, Mmap(step)))
    ensures forall k | k in p.image :: PlanAfter(p, s, Mmap(step)).image[k] == p.image[k]
  {
    var s', r: int := After(s, Mmap(step)), step.regs.x[0];
    MmapTransparent(s.link, step);
    HoldsRead(s'.link.t.mem, r);
    forall k | r <= k < r + 8 ensures k !in s.link.t.mem { MmapFresh(s.link, step, k); }
    FreshSvcKeepsOverlay(s, s', p);
  }

  lemma SvcInMemory(s: DebugState, p: Plan)
    requires Overlaid(s, p) && s.link.privateMemory != MINUS_ONE
    ensures Mapped(s.link.t.mem, s.link.privateMemory) && ReadWord(s.link.t.mem, s.link.privateMemory) == SVC
  {
    ImageWordShows(s.link.t.mem, p, s.link.privateMemory, SVC);
    ReadIs(s.link.t.mem, s.link.privateMemory, SVC);
  }

  ghost predicate KeepsSaved(s: DebugState, s': DebugState) {
    forall a | a in s.breakPoints :: a in s'.breakPoints && s'.breakPoints[a] == s.breakPoints[a]
  }

  lemma StepKeepsOverlay(s: DebugState, p: Plan, e: Event)
    requires Overlaid(s, p) && Allowed(s, p, e)
    ensures Overlaid(After(s, e), PlanAfter(p, s, e))
    ensures forall k | k in p.image :: k in PlanAfter(p, s, e).image && PlanAfter(p, s, e).image[k] == p.image[k]
    ensures KeepsSaved(s, After(s, e))
  {
    match e {
      case SetBp(a) => SetBpKeepsOverlay(s, p, a);
      case SetHw(_, _, _) =>
      case Cont(stop) => ContKeepsOverlay(s, p, stop);
      case Next(step) =>
        ArmedMapped(s, p);
        if step.Ran? { CodeKept(s.link.t.mem, step.mem, p); }
      case Mmap(step) => MmapKeepsOverlay(s, p, step);
      case Mprot(addr, size, prot, step) =>
        if MprotectGoesAhead(s.link, addr) {
          SvcInMemory(s, p);
          MprotectTransparent(s.link, addr, size, prot, step);
        }
    }
  }

  // ---- every run ----

  function Run(s: DebugState, es: seq<Event>): DebugState
    decreases |es|
  {
    if es == [] then s else Run(After(s, es[0]), es[1..])
  }

  lemma {:induction false} RunLast(s: DebugState, es: seq<Event>)
    requires es != []
    ensures Run(s, es) == After(Run(s, es[..|es| - 1]), es[|es| - 1])
    decreases |es|
  {
    if |es| > 1 {
      RunLast(After(s, es[0]), es[1..]);
      assert es[1..][..|es| - 2] == es[..|es| - 1][1..];
    }
  }

  function PlanOf(p: Plan, s: DebugState, es: seq<Event>): Plan
    decreases |es|
  {
    if es == [] then p else PlanOf(PlanAfter(p, s, es[0]), After(s, es[0]), es[1..])
  }

  ghost predicate AllowedRun(s: DebugState, p: Plan, es: seq<Event>)
    decreases |es|
  {
    es != [] ==> Allowed(s, p, es[0]) && AllowedRun(After(s, es[0]), PlanAfter(p, s, es[0]), es[1..])
  }

  /** Setting breakpoints of both kinds, hitting, re-arming, stepping, mmap and
      mprotect in any order: the overlay holds throughout, no saved word is ever replaced, and the image
      keeps all it began with. */
  lemma {:induction false} OverlayOverRuns(s: DebugState, p: Plan, es: seq<Event>)
    requires Overlaid(s, p) && AllowedRun(s, p, es)
    ensures Overlaid(Run(s, es), PlanOf(p, s, es))
    ensures forall k | k in p.image :: k in PlanOf(p, s, es).image && PlanOf(p, s, es).image[k] == p.image[k]
    ensures KeepsSaved(s, Run(s, es))
    decreases |es|
  {
    if es != [] {
      StepKeepsOverlay(s, p, es[0]);
      OverlayOverRuns(After(s, es[0]), PlanAfter(p, s, es[0]), es[1..]);
    }
  }

  /** From a start without breakpoints: every address ever set keeps its
      original word in the table, and once every armed breakpoint has been hit
      the original image is back. */
  lemma ImageRestored(s: DebugState, image: Mem, es: seq<Event>)
    requires s.breakPoints == map[] && s.link.privateMemory == MINUS_ONE
    requires forall k | k in image :: k in s.link.t.mem && s.link.t.mem[k] == image[k]
    requires AllowedRun(s, Plan(image, {}), es)
    ensures var p := PlanOf(Plan(image, {}), s, es);
            var s' := Run(s, es);
            && (forall k | k in image && Uncovered(p.armed, k) :: k in s'.link.t.mem && s'.link.t.mem[k] == image[k])
            && (p.armed == {} ==> forall k | k in image :: k in s'.link.t.mem && s'.link.t.mem[k] == image[k])
            && (forall a | a in s'.breakPoints && Mapped(image, a) :: s'.breakPoints[a] == ReadWord(image, a))
            && (s'.link.privateMemory != MINUS_ONE ==> ReadWord(s'.link.t.mem, s'.link.privateMemory) == SVC)
  {
    OverlayOverRuns(s, Plan(image, {}), es);
    var p, s' := PlanOf(Plan(image, {}), s, es), Run(s, es);
    forall a | a in s'.breakPoints && Mapped(image, a) ensures s'.breakPoints[a] == ReadWord(image, a) {
      HoldsRead(image, a);
      HoldsKept(image, p.image, a, ReadWord(image, a));
      ReadIs(p.image, a, ReadWord(image, a));
      ReadIs(p.image, a, s'.breakPoints[a]);
    }
    forall k | k in image && Uncovered(p.armed, k) ensures k in s'.link.t.mem && s'.link.t.mem[k] == image[k] {
      assert Shows(s'.link.t.mem, p, k);
    }
    if p.armed == {} {
      forall k | k in image ensures s'.link.t.mem[k] == image[k] { assert Uncovered(p.armed, k); }
    }
    if s'.link.privateMemory != MINUS_ONE { SvcInMemory(s', p); }
  }

  // ---- runs of injections ----

  predicate Injects(e: Event) { e.Mmap? || e.Mprot? }

  /** The calls an injection makes with these registers around it. */
  function CallsOf(regs: Regs, pm: u64, e: Event): seq<Call> {
    match e
    case Mmap(step) => [Call(222, [0, 1024, 7, 0x22, 0xFFFF_FFFF_FFFF_FFFF, 0])]
    case Mprot(addr, size, prot, _) =>
      if pm == MINUS_ONE || addr == pm || addr == MINUS_ONE || size == MINUS_ONE || prot == MINUS_ONE then []
      else [Call(226, [addr, size, prot, regs.x[3], regs.x[4], regs.x[5]])]
    case _ => []
  }

  function AllCallsOf(regs: Regs, pm: u64, es: seq<Event>): seq<Call>
    decreases |es|
  {
    if es == [] then []
    else
      var pm' := if es[0].Mmap? && es[0].step.Ran? then es[0].step.regs.x[0] else pm;
      CallsOf(regs, pm, es[0]) + AllCallsOf(regs, pm', es[1..])
  }

  lemma InjectOne(s: DebugState, p: Plan, e: Event)
    requires Overlaid(s, p) && Allowed(s, p, e) && Injects(e)
    ensures var t, t' := s.link.t, After(s, e).link.t;
            && t'.regs == t.regs && t'.slots == t.slots && Keeps(t.mem, t'.mem)
            && t'.calls == t.calls + CallsOf(t.regs, s.link.privateMemory, e)
  {
    match e {
      case Mmap(step) =>
        MmapTransparent(s.link, step);
      case Mprot(addr, size, prot, step) =>
        if MprotectGoesAhead(s.link, addr) {
          SvcInMemory(s, p);
          MprotectTransparent(s.link, addr, size, prot, step);
        }
    }
  }

  /** Any run of mmap and mprotect, on whatever word pc stands, also an armed
      one: registers, slots and all bytes that were mapped end as they began,
      and the calls made are exactly those asked for, with their arguments. */
  lemma {:induction false} InjectionsTransparent(s: DebugState, p: Plan, es: seq<Event>)
    requires Overlaid(s, p) && AllowedRun(s, p, es) && forall i | 0 <= i < |es| :: Injects(es[i])
    ensures var t, t' := s.link.t, Run(s, es).link.t;
            && t'.regs == t.regs && t'.slots == t.slots && Keeps(t.mem, t'.mem)
            && t'.calls == t.calls + AllCallsOf(t.regs, s.link.privateMemory, es)
    decreases |es|
  {
    if es != [] {
      var s1, p1 := After(s, es[0]), PlanAfter(p, s, es[0]);
      assert Injects(es[0]);
      InjectOne(s, p, es[0]);
      StepKeepsOverlay(s, p, es[0]);
      InjectionsTransparent(s1, p1, es[1..]);
      Joined(s.link.t, s1.link.t, Run(s1, es[1..]).link.t,
             CallsOf(s.link.t.regs, s.link.privateMemory, es[0]),
             AllCallsOf(s1.link.t.regs, s1.link.privateMemory, es[1..]));
      CallsFirst(s, es);
    }
  }

  /** One transparent stretch after another is one. */
  lemma Joined(a: Process, b: Process, c: Process, calls: seq<Call>, more: seq<Call>)
    requires b.regs == a.regs && b.slots == a.slots && Keeps(a.mem, b.mem) && b.calls == a.calls + calls
    requires c.regs == b.regs && c.slots == b.slots && Keeps(b.mem, c.mem) && c.calls == b.calls + more
    ensures c.regs == a.regs && c.slots == a.slots && Keeps(a.mem, c.mem) && c.calls == a.calls + (calls + more)
  {
  }

  lemma CallsFirst(s: DebugState, es: seq<Event>)
    requires es != [] && Injects(es[0])
    ensures Run(s, es) == Run(After(s, es[0]), es[1..])
    ensures AllCallsOf(s.link.t.regs, s.link.privateMemory, es) ==
            CallsOf(s.link.t.regs, s.link.privateMemory, es[0]) +
            AllCallsOf(s.link.t.regs, After(s, es[0]).link.privateMemory, es[1..])
  {
  }
}
