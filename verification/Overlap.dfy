/** Why breakpoints must stay eight bytes apart: PEEKTEXT and POKETEXT move
    eight bytes although the instruction has four. */
module Overlap {
  import opened Memory
  import opened Tracee
  import opened Connector
  import opened Debugger

  function MemOf(s: DebugState): Mem { s.link.t.mem }

  function SetAll(s: DebugState, addrs: seq<u64>): DebugState {
    if addrs == [] then s
    else AfterSetBreakPoint(SetAll(s, addrs[..|addrs| - 1]), addrs[|addrs| - 1])
  }

  /** The tracee stops with SIGTRAP at a, whatever raised it, having written
      nothing. */
  function StopAt(s: DebugState, a: u64): DebugState {
    AfterContinue(s, Stopped(SIGTRAP, MemOf(s), s.link.t.regs.(pc := a)))
  }

  function StopAll(s: DebugState, addrs: seq<u64>): DebugState {
    if addrs == [] then s else StopAt(StopAll(s, addrs[..|addrs| - 1]), addrs[|addrs| - 1])
  }

  /** A trap instruction stands at a. */
  ghost predicate TrapAt(m: Mem, a: int) {
    forall k | a <= k < a + 4 :: k in m && m[k] == TRAP[k - a]
  }

  /** Each stop is at a breakpoint whose trap stands there at that time. */
  ghost predicate TrapHits(s: DebugState, hs: seq<u64>) {
    hs != [] ==>
      var init, last := hs[..|hs| - 1], hs[|hs| - 1];
      TrapHits(s, init) && last in s.breakPoints && TrapAt(MemOf(StopAll(s, init)), last)
  }

  ghost predicate Distinct(addrs: seq<u64>) {
    forall i, j | 0 <= i < j < |addrs| :: addrs[i] != addrs[j]
  }

  ghost predicate SpacedOut(addrs: seq<u64>) {
    forall i, j | 0 <= i < j < |addrs| :: Apart(addrs[i], addrs[j])
  }

  ghost predicate AllMapped(m: Mem, addrs: seq<u64>) {
    forall i | 0 <= i < |addrs| :: Mapped(m, addrs[i])
  }

  predicate CoversByte(a: int, k: int) { a <= k < a + 8 }

  /** The last of the addresses whose eight bytes include k, or -1. */
  function LastCover(addrs: seq<u64>, k: int): (j: int)
    ensures -1 <= j < |addrs|
    ensures j >= 0 ==> CoversByte(addrs[j], k)
    ensures forall i | j < i < |addrs| :: !CoversByte(addrs[i], k)
  {
    if addrs == [] then -1
    else if CoversByte(addrs[|addrs| - 1], k) then |addrs| - 1
    else LastCover(addrs[..|addrs| - 1], k)
  }

  /** One byte of a word written. */
  lemma WrittenByte(m: Mem, a: int, w: Word, k: int)
    requires Mapped(m, a) && k in m
    ensures WriteWord(m, a, w)[k] == if CoversByte(a, k) then w[k - a] else m[k]
  {
  }

  lemma SetByte(s: DebugState, a: u64, k: int)
    requires Mapped(MemOf(s), a) && k in MemOf(s)
    ensures MemOf(AfterSetBreakPoint(s, a)).Keys == MemOf(s).Keys
    ensures MemOf(AfterSetBreakPoint(s, a))[k] == if CoversByte(a, k) then TRAP[k - a] else MemOf(s)[k]
  {
    WrittenByte(MemOf(s), a, TRAP, k);
  }

  lemma InitMapped(s: DebugState, addrs: seq<u64>)
    requires AllMapped(MemOf(s), addrs) && addrs != []
    ensures AllMapped(MemOf(s), addrs[..|addrs| - 1])
  {
    var init := addrs[..|addrs| - 1];
    forall i | 0 <= i < |init| ensures Mapped(MemOf(s), init[i]) { assert Mapped(MemOf(s), addrs[i]); }
  }

  lemma MappedByte(m: Mem, a: int, k: int)
    requires Mapped(m, a) && CoversByte(a, k)
    ensures k in m
  {
  }

  lemma SameMapped(m: Mem, m': Mem, a: int)
    requires Mapped(m, a) && m'.Keys == m.Keys
    ensures Mapped(m', a)
  {
  }

  lemma {:induction false} SetAllByte(s: DebugState, addrs: seq<u64>, k: int)
    requires AllMapped(MemOf(s), addrs) && k in MemOf(s)
    ensures MemOf(SetAll(s, addrs)).Keys == MemOf(s).Keys
    ensures var j := LastCover(addrs, k);
            MemOf(SetAll(s, addrs))[k] == if j == -1 then MemOf(s)[k] else TRAP[k - addrs[j]]
  {
    if addrs != [] {
      var init, last := addrs[..|addrs| - 1], addrs[|addrs| - 1];
      InitMapped(s, addrs);
      SetAllByte(s, init, k);
      SameMapped(MemOf(s), MemOf(SetAll(s, init)), last);
      SetByte(SetAll(s, init), last, k);
    }
  }

  lemma {:induction false} SetAllKeys(s: DebugState, addrs: seq<u64>)
    ensures forall a :: a in SetAll(s, addrs).breakPoints <==> a in s.breakPoints || a in addrs
  {
    if addrs != [] {
      SetAllKeys(s, addrs[..|addrs| - 1]);
      assert addrs == addrs[..|addrs| - 1] + [addrs[|addrs| - 1]];
    }
  }

  /** What is saved for an address is what stood there when it was set. */
  lemma {:induction false} SetAllSaves(s: DebugState, addrs: seq<u64>, j: nat)
    requires Distinct(addrs) && j < |addrs| && forall i | 0 <= i < |addrs| :: addrs[i] !in s.breakPoints
    ensures addrs[j] in SetAll(s, addrs).breakPoints
    ensures SetAll(s, addrs).breakPoints[addrs[j]] == ReadWord(MemOf(SetAll(s, addrs[..j])), addrs[j])
  {
    var n := |addrs| - 1;
    var init := addrs[..n];
    SetAllKeys(s, init);
    if j < n {
      SetAllSaves(s, init, j);
      assert init[..j] == addrs[..j];
    }
  }

  lemma StopByte(s: DebugState, a: u64, k: int)
    requires Mapped(MemOf(s), a) && k in MemOf(s) && a in s.breakPoints
    ensures StopAt(s, a).breakPoints == s.breakPoints && MemOf(StopAt(s, a)).Keys == MemOf(s).Keys
    ensures MemOf(StopAt(s, a))[k] == if CoversByte(a, k) then s.breakPoints[a][k - a] else MemOf(s)[k]
  {
    WrittenByte(MemOf(s), a, s.breakPoints[a], k);
  }

  lemma {:induction false} StopAllByte(s: DebugState, addrs: seq<u64>, k: int)
    requires AllMapped(MemOf(s), addrs) && k in MemOf(s) && forall i | 0 <= i < |addrs| :: addrs[i] in s.breakPoints
    ensures StopAll(s, addrs).breakPoints == s.breakPoints && MemOf(StopAll(s, addrs)).Keys == MemOf(s).Keys
    ensures var j := LastCover(addrs, k);
            MemOf(StopAll(s, addrs))[k] == if j == -1 then MemOf(s)[k] else s.breakPoints[addrs[j]][k - addrs[j]]
  {
    if addrs != [] {
      var init, last := addrs[..|addrs| - 1], addrs[|addrs| - 1];
      InitMapped(s, addrs);
      StopAllByte(s, init, k);
      SameMapped(MemOf(s), MemOf(StopAll(s, init)), last);
      StopByte(StopAll(s, init), last, k);
    }
  }

  lemma SetAllMapped(s: DebugState, addrs: seq<u64>, m: Mem)
    requires AllMapped(MemOf(s), addrs) && m.Keys == MemOf(s).Keys
    ensures AllMapped(m, addrs)
  {
    forall i | 0 <= i < |addrs| ensures Mapped(m, addrs[i]) { assert Mapped(MemOf(s), addrs[i]); }
  }

  lemma SavedByte(s: DebugState, addrs: seq<u64>, j: nat, k: int)
    requires s.breakPoints == map[] && Distinct(addrs) && AllMapped(MemOf(s), addrs)
    requires j < |addrs| && CoversByte(addrs[j], k)
    ensures k in MemOf(s) && addrs[j] in SetAll(s, addrs).breakPoints
    ensures var i := LastCover(addrs[..j], k);
            SetAll(s, addrs).breakPoints[addrs[j]][k - addrs[j]] == if i == -1 then MemOf(s)[k] else TRAP[k - addrs[i]]
  {
    assert Mapped(MemOf(s), addrs[j]);
    SetAllSaves(s, addrs, j);
    PrefixMapped(s, addrs, j);
    SetAllByte(s, addrs[..j], k);
    ByteOfWord(MemOf(SetAll(s, addrs[..j])), addrs[j], k);
  }

  lemma PrefixMapped(s: DebugState, addrs: seq<u64>, j: nat)
    requires AllMapped(MemOf(s), addrs) && j < |addrs|
    ensures AllMapped(MemOf(s), addrs[..j]) && Mapped(MemOf(SetAll(s, addrs[..j])), addrs[j])
  {
    forall i | 0 <= i < j ensures Mapped(MemOf(s), addrs[..j][i]) { assert Mapped(MemOf(s), addrs[i]); }
    SetKeys(s, addrs[..j]);
    assert Mapped(MemOf(s), addrs[j]);
  }

  lemma ByteOfWord(m: Mem, a: int, k: int)
    requires Mapped(m, a) && CoversByte(a, k)
    ensures k in m && ReadWord(m, a)[k - a] == m[k]
  {
  }

  /** Byte k after setting the breakpoints and stopping at them in the same
      order, whether or not their traps still stand: as it was, unless two of
      them cover it; then a byte of the last but one trap stays behind. */
  lemma ByteAfterSameOrder(s: DebugState, addrs: seq<u64>, k: int)
    requires s.breakPoints == map[] && Distinct(addrs) && AllMapped(MemOf(s), addrs) && k in MemOf(s)
    ensures k in MemOf(StopAll(SetAll(s, addrs), addrs))
    ensures var j := LastCover(addrs, k);
            var i := if j == -1 then -1 else LastCover(addrs[..j], k);
            MemOf(StopAll(SetAll(s, addrs), addrs))[k] == if i == -1 then MemOf(s)[k] else TRAP[k - addrs[i]]
  {
    var armed := SetAll(s, addrs);
    SetAllByte(s, addrs, k);
    SetAllKeys(s, addrs);
    SetAllMapped(s, addrs, MemOf(armed));
    StopAllByte(armed, addrs, k);
    var j := LastCover(addrs, k);
    if j >= 0 { SavedByte(s, addrs, j, k); }
  }

  /** A state whose code is 0x55 throughout, a byte no trap word contains. */
  function Witness(addrs: seq<u64>): DebugState
  {
    var mem := map k | k in Reach(addrs) :: 0x55;
    var x: GpRegs := seq(31, _ => 0);
    DebugState(Link(Process(mem, Regs(x, 0, 0, 0), [], []), MINUS_ONE), map[])
  }

  function Reach(addrs: seq<u64>): (ks: set<int>)
    ensures forall i, k | 0 <= i < |addrs| && CoversByte(addrs[i], k) :: k in ks
  {
    if addrs == [] then {}
    else
      var a: int := addrs[|addrs| - 1];
      Reach(addrs[..|addrs| - 1]) + {a, a + 1, a + 2, a + 3, a + 4, a + 5, a + 6, a + 7}
  }

  lemma WitnessMapped(addrs: seq<u64>)
    ensures AllMapped(MemOf(Witness(addrs)), addrs)
  {
    var m := MemOf(Witness(addrs));
    forall i | 0 <= i < |addrs| ensures Mapped(m, addrs[i]) {
      var a: int := addrs[i];
      forall k | a <= k < a + 8 ensures k in m { assert CoversByte(addrs[i], k); }
    }
  }

  /** The byte at which two overlapping breakpoints meet ends as a trap byte. */
  lemma TrapByteStays(s: DebugState, addrs: seq<u64>, i: nat, j: nat) returns (k: int, b: nat)
    requires s.breakPoints == map[] && Distinct(addrs) && AllMapped(MemOf(s), addrs)
    requires i < j < |addrs| && !Apart(addrs[i], addrs[j])
    ensures k in MemOf(s) && k in MemOf(StopAll(SetAll(s, addrs), addrs))
    ensures b < 8 && MemOf(StopAll(SetAll(s, addrs), addrs))[k] == TRAP[b]
  {
    k := if addrs[i] < addrs[j] then addrs[j] else addrs[i];
    assert CoversByte(addrs[i], k) && CoversByte(addrs[j], k);
    assert Mapped(MemOf(s), addrs[j]) && k in MemOf(s);
    var l := LastCover(addrs, k);
    assert i < l && addrs[..l][i] == addrs[i];
    ByteAfterSameOrder(s, addrs, k);
    b := k - addrs[LastCover(addrs[..l], k)];
  }

  lemma WitnessByte(addrs: seq<u64>, k: int)
    requires k in MemOf(Witness(addrs))
    ensures MemOf(Witness(addrs))[k] == 0x55
  {
  }

  lemma NoTrapByte(b: nat)
    requires b < 8
    ensures TRAP[b] != 0x55
  {
  }

  lemma OverlapLeavesTrap(addrs: seq<u64>, i: nat, j: nat)
    requires Distinct(addrs) && i < j < |addrs| && !Apart(addrs[i], addrs[j])
    ensures AllMapped(MemOf(Witness(addrs)), addrs)
    ensures MemOf(StopAll(SetAll(Witness(addrs), addrs), addrs)) != MemOf(Witness(addrs))
  {
    WitnessMapped(addrs);
    var s := Witness(addrs);
    var k, b := TrapByteStays(s, addrs, i, j);
    WitnessByte(addrs, k);
    NoTrapByte(b);
  }

  lemma CoveredOnce(addrs: seq<u64>, j: nat, k: int)
    requires SpacedOut(addrs) && j < |addrs| && CoversByte(addrs[j], k)
    ensures LastCover(addrs[..j], k) == -1
  {
    forall i | 0 <= i < j ensures !CoversByte(addrs[..j][i], k) { assert Apart(addrs[i], addrs[j]); }
  }

  lemma SpacedRestores(s: DebugState, addrs: seq<u64>)
    requires SpacedOut(addrs) && s.breakPoints == map[] && Distinct(addrs) && AllMapped(MemOf(s), addrs)
    ensures MemOf(StopAll(SetAll(s, addrs), addrs)) == MemOf(s)
  {
    var m := MemOf(StopAll(SetAll(s, addrs), addrs));
    forall k | k in MemOf(s) ensures k in m && m[k] == MemOf(s)[k] {
      ByteAfterSameOrder(s, addrs, k);
      var j := LastCover(addrs, k);
      if j >= 0 { CoveredOnce(addrs, j, k); }
    }
    StopKeys(SetAll(s, addrs), addrs);
    SetKeys(s, addrs);
  }

  lemma {:induction false} SetKeys(s: DebugState, addrs: seq<u64>)
    ensures MemOf(SetAll(s, addrs)).Keys == MemOf(s).Keys
  {
    if addrs != [] { SetKeys(s, addrs[..|addrs| - 1]); }
  }

  lemma {:induction false} StopKeys(s: DebugState, addrs: seq<u64>)
    ensures MemOf(StopAll(s, addrs)).Keys == MemOf(s).Keys
  {
    if addrs != [] { StopKeys(s, addrs[..|addrs| - 1]); }
  }

  /** Whether stopping at the breakpoints in the order they were set restores
      the code, whatever the code is and whatever raised the signals, depends
      on the addresses alone: exactly when they are pairwise eight bytes apart. */
  lemma SameOrderExactly(addrs: seq<u64>)
    requires Distinct(addrs)
    ensures (forall s: DebugState | s.breakPoints == map[] && AllMapped(MemOf(s), addrs) ::
               MemOf(StopAll(SetAll(s, addrs), addrs)) == MemOf(s))
            <==> SpacedOut(addrs)
  {
    if SpacedOut(addrs) {
      forall s: DebugState | s.breakPoints == map[] && AllMapped(MemOf(s), addrs)
        ensures MemOf(StopAll(SetAll(s, addrs), addrs)) == MemOf(s)
      { SpacedRestores(s, addrs); }
    } else {
      var i, j :| 0 <= i < j < |addrs| && !Apart(addrs[i], addrs[j]);
      OverlapLeavesTrap(addrs, i, j);
    }
  }

  // ---- the opposite order ----

  function Reversed<T>(xs: seq<T>): seq<T> {
    if xs == [] then [] else [xs[|xs| - 1]] + Reversed(xs[..|xs| - 1])
  }

  /** Stopping in sequence is stopping at the first, then the rest, and depends
      only on memory and the saved words of the addresses. */
  lemma {:induction false} StopFirst(s: DebugState, s': DebugState, a: u64, rest: seq<u64>)
    requires a in s.breakPoints && MemOf(s') == MemOf(StopAt(s, a))
    requires forall i | 0 <= i < |rest| ::
      rest[i] in s.breakPoints && rest[i] in s'.breakPoints && s.breakPoints[rest[i]] == s'.breakPoints[rest[i]]
    ensures MemOf(StopAll(s, [a] + rest)) == MemOf(StopAll(s', rest))
    ensures StopAll(s, [a] + rest).breakPoints == s.breakPoints && StopAll(s', rest).breakPoints == s'.breakPoints
    ensures TrapHits(s, [a] + rest) <==> TrapAt(MemOf(s), a) && TrapHits(s', rest)
    decreases |rest|
  {
    var all := [a] + rest;
    if rest == [] {
      assert all[..0] == [];
    } else {
      var init := rest[..|rest| - 1];
      assert all[..|all| - 1] == [a] + init;
      StopFirst(s, s', a, init);
    }
  }

  lemma {:induction false} ReversedMembers<T>(xs: seq<T>, i: nat)
    requires i < |Reversed(xs)|
    ensures Reversed(xs)[i] in xs
  {
    if i > 0 { ReversedMembers(xs[..|xs| - 1], i - 1); }
  }

  lemma TrapWritten(m: Mem, a: int)
    requires Mapped(m, a)
    ensures TrapAt(WriteWord(m, a, TRAP), a)
  {
    forall k | a <= k < a + 4 ensures k in m && WriteWord(m, a, TRAP)[k] == TRAP[k - a] {
      MappedByte(m, a, k);
      WrittenByte(m, a, TRAP, k);
    }
  }

  lemma TrapStands(s: DebugState, a: u64)
    requires Mapped(MemOf(s), a)
    ensures TrapAt(MemOf(AfterSetBreakPoint(s, a)), a)
  {
    TrapWritten(MemOf(s), a);
  }

  /** Hit in the opposite order, overlapping breakpoints too restore the code:
      the trap of each stands when its turn comes. */
  lemma {:induction false} OppositeOrderRestores(s: DebugState, addrs: seq<u64>)
    requires Distinct(addrs) && forall i | 0 <= i < |addrs| :: addrs[i] !in s.breakPoints
    ensures MemOf(StopAll(SetAll(s, addrs), Reversed(addrs))) == MemOf(s)
    ensures AllMapped(MemOf(s), addrs) ==> TrapHits(SetAll(s, addrs), Reversed(addrs))
  {
    if addrs != [] {
      var n := |addrs| - 1;
      var init, a := addrs[..n], addrs[n];
      var before, after := SetAll(s, init), SetAll(s, addrs);
      SetAllSaves(s, addrs, n);
      WriteUndone(MemOf(before), a, TRAP);
      assert MemOf(StopAt(after, a)) == MemOf(before);
      SavedAlike(s, addrs);
      StopFirst(after, before, a, Reversed(init));
      OppositeOrderRestores(s, init);
      if AllMapped(MemOf(s), addrs) {
        PrefixMapped(s, addrs, n);
        TrapStands(before, a);
      }
    }
  }

  lemma SavedAlike(s: DebugState, addrs: seq<u64>)
    requires addrs != [] && Distinct(addrs) && forall i | 0 <= i < |addrs| :: addrs[i] !in s.breakPoints
    ensures
      var init := addrs[..|addrs| - 1];
      var before, after := SetAll(s, init), SetAll(s, addrs);
      forall i | 0 <= i < |Reversed(init)| ::
        var b := Reversed(init)[i];
        b in before.breakPoints && b in after.breakPoints && before.breakPoints[b] == after.breakPoints[b]
  {
    var init := addrs[..|addrs| - 1];
    var before, after := SetAll(s, init), SetAll(s, addrs);
    forall i | 0 <= i < |Reversed(init)|
      ensures var b := Reversed(init)[i];
              b in before.breakPoints && b in after.breakPoints && before.breakPoints[b] == after.breakPoints[b]
    {
      ReversedMembers(init, i);
      var j :| 0 <= j < |init| && init[j] == Reversed(init)[i];
      SetAllSaves(s, init, j);
    }
  }
}
