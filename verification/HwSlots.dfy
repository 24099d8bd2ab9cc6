/** What a run of commands leaves in each hardware breakpoint slot. */
module HwSlots {
  import opened Memory
  import opened Tracee
  import opened Connector
  import opened Debugger
  import opened Overlay

  function SlotsOf(s: DebugState): seq<Slot> { s.link.t.slots }

  /** The command puts a breakpoint into slot i. */
  predicate Sets(e: Event, i: nat) { e.SetHw? && e.num == i && e.accepted }

  /** The tracee stops with SIGTRAP where no software breakpoint is, but slot i
      or one above it holds the address. */
  ghost predicate Clears(s: DebugState, e: Event, i: nat) {
    && e.Cont? && e.stop.Stopped? && e.stop.signal == 5 && e.stop.regs.pc !in s.breakPoints
    && exists j :: i <= j < |SlotsOf(s)| && SlotsOf(s)[j].addr == e.stop.regs.pc
  }

  lemma SlotAfter(s: DebugState, e: Event, i: nat)
    requires i < |SlotsOf(s)|
    ensures |SlotsOf(After(s, e))| == |SlotsOf(s)|
    ensures SlotsOf(After(s, e))[i] ==
            if Sets(e, i) then Slot(e.addr - e.addr % 4, 0x781)
            else if Clears(s, e, i) then Slot(0, 0)
            else SlotsOf(s)[i]
  {
    if e.Cont? && e.stop.Stopped? {
      var last := LastMatch(SlotsOf(s), e.stop.regs.pc, |SlotsOf(s)|);
      if last >= i { assert SlotsOf(s)[last].addr == e.stop.regs.pc; }
    }
  }

  /** The last command that set slot i, or -1. */
  function LastSet(es: seq<Event>, i: nat): (p: int)
    ensures -1 <= p < |es| && (p >= 0 ==> Sets(es[p], i))
    ensures forall k | p < k < |es| :: !Sets(es[k], i)
  {
    if es == [] then -1
    else if Sets(es[|es| - 1], i) then |es| - 1
    else LastSet(es[..|es| - 1], i)
  }

  /** Command k of the run clears slot i. */
  ghost predicate ClearsAt(s: DebugState, es: seq<Event>, k: nat, i: nat) {
    k < |es| && Clears(Run(s, es[..k]), es[k], i)
  }

  ghost predicate ClearedSince(s: DebugState, es: seq<Event>, p: int, i: nat) {
    exists k: nat :: p < k < |es| && ClearsAt(s, es, k, i)
  }

  /** What slot i holds, told from the commands. */
  ghost function Told(s: DebugState, es: seq<Event>, i: nat): Slot
    requires i < |SlotsOf(s)|
  {
    var p := LastSet(es, i);
    if ClearedSince(s, es, p, i) then Slot(0, 0)
    else if p == -1 then SlotsOf(s)[i]
    else Slot(es[p].addr - es[p].addr % 4, 0x781)
  }

  lemma ClearedLonger(s: DebugState, es: seq<Event>, p: int, i: nat)
    requires es != [] && p < |es| - 1
    ensures var n := |es| - 1;
            ClearedSince(s, es, p, i) <==> ClearsAt(s, es, n, i) || ClearedSince(s, es[..n], p, i)
  {
    var n := |es| - 1;
    var init := es[..n];
    forall k: nat | k < n ensures ClearsAt(s, es, k, i) == ClearsAt(s, init, k, i) { assert es[..k] == init[..k]; }
    if ClearedSince(s, es, p, i) {
      var k: nat :| p < k < |es| && ClearsAt(s, es, k, i);
      if k < n { assert ClearsAt(s, init, k, i); }
    }
    if k: nat :| p < k < n && ClearsAt(s, init, k, i) { assert ClearsAt(s, es, k, i); }
  }

  lemma ToldNext(s: DebugState, es: seq<Event>, i: nat)
    requires es != [] && i < |SlotsOf(s)|
    ensures var n := |es| - 1;
            Told(s, es, i) == if Sets(es[n], i) then Slot(es[n].addr - es[n].addr % 4, 0x781)
                              else if ClearsAt(s, es, n, i) then Slot(0, 0)
                              else Told(s, es[..n], i)
  {
    if !Sets(es[|es| - 1], i) { ClearedLonger(s, es, LastSet(es, i), i); }
  }

  /** Over any run at all a slot holds the aligned address last accepted for it
      (or what it held at first) unless since then the tracee has trapped at the
      address of that slot or of one above it; then it is zero. */
  lemma {:induction false} SlotsOverRuns(s: DebugState, es: seq<Event>, i: nat)
    requires i < |SlotsOf(s)|
    ensures |SlotsOf(Run(s, es))| == |SlotsOf(s)|
    ensures SlotsOf(Run(s, es))[i] == Told(s, es, i)
    decreases |es|
  {
    if es != [] {
      var n := |es| - 1;
      SlotsOverRuns(s, es[..n], i);
      RunLast(s, es);
      SlotAfter(Run(s, es[..n]), es[n], i);
      ToldNext(s, es, i);
    }
  }
}
