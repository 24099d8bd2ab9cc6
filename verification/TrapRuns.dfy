/** Overlapping breakpoints hit where their traps still stand: which sets of
    addresses give the code back. */
module TrapRuns {
  import opened Memory
  import opened Tracee
  import opened Connector
  import opened Debugger
  import opened Overlap

  /** Instructions, and so the pc of a trap, are four-byte aligned. */
  ghost predicate Aligned(addrs: seq<u64>) {
    forall i {:trigger FourAligned(addrs[i])} | 0 <= i < |addrs| :: FourAligned(addrs[i])
  }

  predicate FourAligned(a: int) { a % 4 == 0 }

  ghost predicate NoTrap(m: Mem, addrs: seq<u64>) {
    forall i | 0 <= i < |addrs| :: !TrapAt(m, addrs[i])
  }

  predicate FourAbove(a: int, b: int) { b == a + 4 }

  /** No breakpoint is set four bytes above one set before it. */
  ghost predicate NoneSetAbove(addrs: seq<u64>) {
    forall i, j {:trigger FourAbove(addrs[i], addrs[j])} | 0 <= i < j < |addrs| :: !FourAbove(addrs[i], addrs[j])
  }

  predicate Among(addrs: seq<u64>, c: int) {
    exists i | 0 <= i < |addrs| :: addrs[i] == c
  }

  // ---- two neighbours ----

  ghost predicate TwoSet(s: DebugState, addrs: seq<u64>) {
    && |addrs| == 2 && FourAbove(addrs[0], addrs[1])
    && s.breakPoints == map[] && Distinct(addrs) && AllMapped(MemOf(s), addrs)
  }

  lemma FirstKnown(s: DebugState, addrs: seq<u64>)
    requires TwoSet(s, addrs)
    ensures Mapped(MemOf(s), addrs[0]) && Mapped(MemOf(SetAll(s, addrs)), addrs[0])
    ensures addrs[0] in SetAll(s, addrs).breakPoints && MemOf(SetAll(s, addrs)).Keys == MemOf(s).Keys
  {
    SetAllKeys(s, addrs);
    SetKeys(s, addrs);
    assert Mapped(MemOf(s), addrs[0]);
    SameMapped(MemOf(s), MemOf(SetAll(s, addrs)), addrs[0]);
  }

  lemma FirstTrapByte(s: DebugState, addrs: seq<u64>, k: int)
    requires TwoSet(s, addrs) && addrs[0] <= k < addrs[0] as int + 4
    ensures k in MemOf(SetAll(s, addrs)) && MemOf(SetAll(s, addrs))[k] == TRAP[k - addrs[0]]
  {
    FirstKnown(s, addrs);
    MappedByte(MemOf(s), addrs[0], k);
    assert CoversByte(addrs[0], k) && !CoversByte(addrs[1], k);
    SetAllByte(s, addrs, k);
  }

  lemma ByteGivenBack(s: DebugState, addrs: seq<u64>, k: int)
    requires TwoSet(s, addrs) && CoversByte(addrs[0], k) && k in MemOf(s)
    ensures k in MemOf(StopAt(SetAll(s, addrs), addrs[0]))
    ensures MemOf(StopAt(SetAll(s, addrs), addrs[0]))[k] == MemOf(s)[k]
  {
    FirstKnown(s, addrs);
    StopByte(SetAll(s, addrs), addrs[0], k);
    SavedByte(s, addrs, 0, k);
  }

  lemma ByteLeft(s: DebugState, addrs: seq<u64>, k: int)
    requires TwoSet(s, addrs) && !CoversByte(addrs[0], k) && k in MemOf(s)
    ensures k in MemOf(StopAt(SetAll(s, addrs), addrs[0]))
    ensures MemOf(StopAt(SetAll(s, addrs), addrs[0]))[k] == if CoversByte(addrs[1], k) then 0 else MemOf(s)[k]
  {
    FirstKnown(s, addrs);
    SetAllByte(s, addrs, k);
    StopByte(SetAll(s, addrs), addrs[0], k);
  }

  lemma FirstTrapStands(s: DebugState, addrs: seq<u64>)
    requires TwoSet(s, addrs)
    ensures TrapAt(MemOf(SetAll(s, addrs)), addrs[0])
  {
    var a, m := addrs[0] as int, MemOf(SetAll(s, addrs));
    forall k | a <= k < a + 4 ensures k in m && m[k] == TRAP[k - a] { FirstTrapByte(s, addrs, k); }
  }

  lemma SameTrap(m: Mem, m': Mem, a: int)
    requires TrapAt(m', a) && m.Keys == m'.Keys && forall k | k in m && a <= k < a + 4 :: m'[k] == m[k]
    ensures TrapAt(m, a)
  {
  }

  /** Set one address, then the one four above it, and hit the first: the second
      trap is gone with the first, and the four bytes behind it stay zero. */
  lemma SecondTrapLost(s: DebugState, addrs: seq<u64>)
    requires TwoSet(s, addrs)
    ensures var armed, b := SetAll(s, addrs), addrs[1] as int;
            var m := MemOf(StopAt(armed, addrs[0]));
            && addrs[0] in armed.breakPoints && TrapAt(MemOf(armed), addrs[0])
            && (TrapAt(m, b) ==> TrapAt(MemOf(s), b))
            && m.Keys == MemOf(s).Keys
            && forall k | k in m :: m[k] == if b + 4 <= k < b + 8 then 0 else MemOf(s)[k]
  {
    var armed, b := SetAll(s, addrs), addrs[1] as int;
    var m := MemOf(StopAt(armed, addrs[0]));
    FirstKnown(s, addrs);
    StopWrites(armed, addrs[0]);
    forall k | k in m ensures m[k] == if b + 4 <= k < b + 8 then 0 else MemOf(s)[k] {
      if CoversByte(addrs[0], k) { ByteGivenBack(s, addrs, k); } else { ByteLeft(s, addrs, k); }
    }
    FirstTrapStands(s, addrs);
    if TrapAt(m, b) { SameTrap(MemOf(s), m, b); }
  }

  // ---- cells of four bytes ----

  function CellOf(k: int): int { k - k % 4 }

  lemma CoveringCells(a: int, k: int)
    requires FourAligned(a)
    ensures CoversByte(a, k) <==> CellOf(k) == a || CellOf(k) == a + 4
    ensures CellOf(k) == a <==> a <= k < a + 4
    ensures CellOf(k) == a + 4 <==> a + 4 <= k < a + 8
  {
  }

  /** The cells that show a trap, and those zeroed by the trap below them. */
  datatype Cells = Cells(planted: set<int>, hidden: set<int>)

  ghost predicate ByteShown(img: Mem, m: Mem, cs: Cells, k: int)
    requires k in img
  {
    k in m && m[k] == if CellOf(k) in cs.planted then TRAP[k % 4] else if CellOf(k) in cs.hidden then 0 else img[k]
  }

  /** A hidden cell lies above a breakpoint that is planted or hidden too. */
  ghost predicate Above(addrs: seq<u64>, cs: Cells, c: int) {
    Among(addrs, c - 4) && (c - 4 in cs.planted || c - 4 in cs.hidden)
  }

  ghost predicate Standing(img: Mem, addrs: seq<u64>, cs: Cells, m: Mem) {
    && m.Keys == img.Keys
    && (forall c | c in cs.planted :: Among(addrs, c) && c !in cs.hidden)
    && (forall c {:trigger Above(addrs, cs, c)} | c in cs.hidden :: Above(addrs, cs, c))
    && (forall k {:trigger ByteShown(img, m, cs, k)} | k in img :: ByteShown(img, m, cs, k))
  }

  // ---- setting ----

  lemma NextIsBefore(addrs: seq<u64>, i: nat, j: nat)
    requires NoneSetAbove(addrs) && i < |addrs| && j < |addrs| && FourAbove(addrs[i], addrs[j])
    ensures j < i
  {
  }

  function SetCells(addrs: seq<u64>): Cells {
    Cells(set i | 0 <= i < |addrs| && !Among(addrs, addrs[i] as int - 4) :: addrs[i] as int,
          set i | 0 <= i < |addrs| :: addrs[i] as int + 4)
  }

  lemma InSetCells(addrs: seq<u64>, c: int)
    ensures c in SetCells(addrs).planted <==> Among(addrs, c) && !Among(addrs, c - 4)
    ensures c in SetCells(addrs).hidden <==> Among(addrs, c - 4)
  {
    if Among(addrs, c) { var i :| 0 <= i < |addrs| && addrs[i] == c; }
    if Among(addrs, c - 4) {
      var i :| 0 <= i < |addrs| && addrs[i] == c - 4;
      assert addrs[i] as int + 4 == c;
    }
  }

  /** The last breakpoint that reaches a byte is the one below its cell, if any. */
  lemma LastOfCell(addrs: seq<u64>, k: int)
    requires Aligned(addrs) && NoneSetAbove(addrs)
    ensures var j, c := LastCover(addrs, k), CellOf(k);
            if Among(addrs, c - 4) then j >= 0 && addrs[j] == c - 4
            else if Among(addrs, c) then j >= 0 && addrs[j] == c
            else j == -1
  {
    var j, c := LastCover(addrs, k), CellOf(k);
    if j >= 0 {
      CoveringCells(addrs[j], k);
      assert Among(addrs, addrs[j]);
    }
    if Among(addrs, c - 4) {
      var i :| 0 <= i < |addrs| && addrs[i] == c - 4;
      CoveringCells(addrs[i], k);
      if addrs[j] != c - 4 { NextIsBefore(addrs, i, j); }
    } else if Among(addrs, c) {
      var i :| 0 <= i < |addrs| && addrs[i] == c;
      CoveringCells(addrs[i], k);
    }
  }

  lemma TrapByte(a: int, k: int)
    requires FourAligned(a) && CoversByte(a, k)
    ensures TRAP[k - a] == if CellOf(k) == a then TRAP[k % 4] else 0
  {
  }

  lemma CellSet(s: DebugState, addrs: seq<u64>, k: int)
    requires Aligned(addrs) && NoneSetAbove(addrs) && AllMapped(MemOf(s), addrs) && k in MemOf(s)
    ensures ByteShown(MemOf(s), MemOf(SetAll(s, addrs)), SetCells(addrs), k)
  {
    SetAllByte(s, addrs, k);
    LastOfCell(addrs, k);
    InSetCells(addrs, CellOf(k));
    var j := LastCover(addrs, k);
    if j >= 0 {
      assert FourAligned(addrs[j]);
      TrapByte(addrs[j], k);
    }
  }

  lemma SetStands(s: DebugState, addrs: seq<u64>)
    requires Aligned(addrs) && NoneSetAbove(addrs) && AllMapped(MemOf(s), addrs)
    ensures Standing(MemOf(s), addrs, SetCells(addrs), MemOf(SetAll(s, addrs)))
  {
    var cs := SetCells(addrs);
    SetKeys(s, addrs);
    forall k | k in MemOf(s) ensures ByteShown(MemOf(s), MemOf(SetAll(s, addrs)), cs, k) { CellSet(s, addrs, k); }
    forall c | c in cs.hidden ensures Above(addrs, cs, c) {
      InSetCells(addrs, c);
      InSetCells(addrs, c - 4);
    }
    forall c | c in cs.planted ensures Among(addrs, c) && c !in cs.hidden { InSetCells(addrs, c); }
  }

  // ---- hitting ----

  /** What a hit writes: the code, or the trap set before it four bytes above. */
  function SavedValue(img: Mem, addrs: seq<u64>, a: int, k: int): byte
    requires CoversByte(a, k) && k in img
  {
    if k >= a + 4 && Among(addrs, a + 4) then TRAP[k - (a + 4)] else img[k]
  }

  ghost predicate SavedCells(img: Mem, addrs: seq<u64>, a: int, w: Word) {
    forall k {:trigger SavedCell(img, addrs, a, w, k)} | CoversByte(a, k) :: SavedCell(img, addrs, a, w, k)
  }

  ghost predicate SavedCell(img: Mem, addrs: seq<u64>, a: int, w: Word, k: int)
    requires CoversByte(a, k)
  {
    k in img && w[k - a] == SavedValue(img, addrs, a, k)
  }

  /** Before a breakpoint is set only the one four bytes above reaches its
      bytes, and only the upper four. */
  lemma ReachedBefore(addrs: seq<u64>, j: nat, k: int)
    requires Distinct(addrs) && Aligned(addrs) && NoneSetAbove(addrs) && j < |addrs| && CoversByte(addrs[j], k)
    ensures var a, i := addrs[j] as int, LastCover(addrs[..j], k);
            if k >= a + 4 && Among(addrs, a + 4) then i >= 0 && addrs[i] == a + 4 else i == -1
  {
    var a, i := addrs[j] as int, LastCover(addrs[..j], k);
    CoveringCells(a, k);
    if i >= 0 {
      assert addrs[..j][i] == addrs[i] != addrs[j];
      CoveringCells(addrs[i], k);
      assert !FourAbove(addrs[i], addrs[j]);
      assert Among(addrs, addrs[i]);
    }
    if k >= a + 4 && Among(addrs, a + 4) {
      var l :| 0 <= l < |addrs| && addrs[l] == a + 4;
      NextIsBefore(addrs, j, l);
      assert addrs[..j][l] == addrs[l] && CoversByte(addrs[l], k);
    }
  }

  lemma SavedByteOf(s: DebugState, addrs: seq<u64>, j: nat, k: int)
    requires s.breakPoints == map[] && Distinct(addrs) && AllMapped(MemOf(s), addrs)
    requires Aligned(addrs) && NoneSetAbove(addrs) && j < |addrs| && CoversByte(addrs[j], k)
    ensures addrs[j] in SetAll(s, addrs).breakPoints && k in MemOf(s)
    ensures SetAll(s, addrs).breakPoints[addrs[j]][k - addrs[j]] == SavedValue(MemOf(s), addrs, addrs[j], k)
  {
    SavedByte(s, addrs, j, k);
    ReachedBefore(addrs, j, k);
  }

  lemma SavedCellsOf(s: DebugState, addrs: seq<u64>, j: nat)
    requires s.breakPoints == map[] && Distinct(addrs) && AllMapped(MemOf(s), addrs)
    requires Aligned(addrs) && NoneSetAbove(addrs) && j < |addrs|
    ensures addrs[j] in SetAll(s, addrs).breakPoints
    ensures SavedCells(MemOf(s), addrs, addrs[j], SetAll(s, addrs).breakPoints[addrs[j]])
  {
    SavedByteOf(s, addrs, j, addrs[j]);
    var a: int, w := addrs[j], SetAll(s, addrs).breakPoints[addrs[j]];
    forall k | CoversByte(a, k) ensures SavedCell(MemOf(s), addrs, a, w, k) { SavedByteOf(s, addrs, j, k); }
  }

  function HitCells(addrs: seq<u64>, cs: Cells, h: int): Cells {
    Cells(cs.planted - {h} + if Among(addrs, h + 4) then {h + 4} else {}, cs.hidden - {h + 4})
  }

  lemma NotHidden(img: Mem, addrs: seq<u64>, cs: Cells, m: Mem, h: int)
    requires Standing(img, addrs, cs, m) && TrapAt(m, h) && FourAligned(h)
    ensures h !in cs.hidden
  {
    assert m[h + 2] == TRAP[2];
    assert ByteShown(img, m, cs, h + 2);
    CoveringCells(h, h + 2);
  }

  lemma HitByte(img: Mem, addrs: seq<u64>, cs: Cells, m: Mem, h: int, w: Word, k: int)
    requires k in img && ByteShown(img, m, cs, k) && h !in cs.hidden && FourAligned(h)
    requires Mapped(m, h) && SavedCells(img, addrs, h, w) && forall c | c in cs.planted :: Among(addrs, c)
    ensures ByteShown(img, WriteWord(m, h, w), HitCells(addrs, cs, h), k)
  {
    CoveringCells(h, k);
    if CoversByte(h, k) {
      assert SavedCell(img, addrs, h, w, k);
      assert k >= h + 4 ==> k - (h + 4) == k % 4;
    }
  }

  lemma HitKeeps(img: Mem, addrs: seq<u64>, cs: Cells, m: Mem, h: int, w: Word)
    requires Standing(img, addrs, cs, m) && TrapAt(m, h) && Among(addrs, h) && FourAligned(h)
    requires Mapped(m, h) && SavedCells(img, addrs, h, w)
    ensures Standing(img, addrs, HitCells(addrs, cs, h), WriteWord(m, h, w))
  {
    var cs' := HitCells(addrs, cs, h);
    NotHidden(img, addrs, cs, m, h);
    forall k | k in img ensures ByteShown(img, WriteWord(m, h, w), cs', k) {
      assert ByteShown(img, m, cs, k);
      HitByte(img, addrs, cs, m, h, w, k);
    }
    forall c | c in cs'.hidden ensures Above(addrs, cs', c) { assert Above(addrs, cs, c); }
  }

  lemma {:induction false} HitsKeep(s: DebugState, addrs: seq<u64>, hs: seq<u64>) returns (cs: Cells)
    requires s.breakPoints == map[] && Distinct(addrs) && AllMapped(MemOf(s), addrs)
    requires Aligned(addrs) && NoneSetAbove(addrs) && TrapHits(SetAll(s, addrs), hs)
    ensures Standing(MemOf(s), addrs, cs, MemOf(StopAll(SetAll(s, addrs), hs)))
    ensures StopAll(SetAll(s, addrs), hs).breakPoints == SetAll(s, addrs).breakPoints
    decreases |hs|
  {
    var armed := SetAll(s, addrs);
    if hs == [] {
      SetStands(s, addrs);
      cs := SetCells(addrs);
    } else {
      var init, h := hs[..|hs| - 1], hs[|hs| - 1];
      cs := HitsKeep(s, addrs, init);
      SetAllKeys(s, addrs);
      var j :| 0 <= j < |addrs| && addrs[j] == h;
      SavedCellsOf(s, addrs, j);
      SetAllMapped(s, addrs, MemOf(StopAll(armed, init)));
      assert Mapped(MemOf(StopAll(armed, init)), addrs[j]);
      HitKeeps(MemOf(s), addrs, cs, MemOf(StopAll(armed, init)), h, armed.breakPoints[h]);
      cs := HitCells(addrs, cs, h);
    }
  }

  lemma PlantedTraps(img: Mem, addrs: seq<u64>, cs: Cells, m: Mem, c: int)
    requires Standing(img, addrs, cs, m) && c in cs.planted && FourAligned(c) && Mapped(img, c)
    ensures TrapAt(m, c)
  {
    forall k | c <= k < c + 4 ensures k in m && m[k] == TRAP[k - c] {
      assert c <= k < c + 8;
      assert ByteShown(img, m, cs, k);
      CoveringCells(c, k);
    }
  }

  /** Without planted cells none is hidden: the lowest would lie above one. */
  lemma {:induction false} NoneHidden(img: Mem, addrs: seq<u64>, cs: Cells, m: Mem, c: int)
    requires Standing(img, addrs, cs, m) && cs.planted == {}
    ensures c !in cs.hidden
    decreases if c < 0 then 0 else c
  {
    if c in cs.hidden {
      assert Above(addrs, cs, c);
      NoneHidden(img, addrs, cs, m, c - 4);
    }
  }

  lemma NoTrapNoPatch(img: Mem, addrs: seq<u64>, cs: Cells, m: Mem)
    requires Standing(img, addrs, cs, m) && NoTrap(m, addrs) && Aligned(addrs) && AllMapped(img, addrs)
    ensures m == img
  {
    forall c | c in cs.planted ensures false {
      var j :| 0 <= j < |addrs| && addrs[j] == c;
      assert Mapped(img, addrs[j]) && !TrapAt(m, addrs[j]);
      PlantedTraps(img, addrs, cs, m, c);
    }
    forall k | k in img ensures m[k] == img[k] {
      NoneHidden(img, addrs, cs, m, CellOf(k));
      assert ByteShown(img, m, cs, k);
    }
  }

  /** Any run of hits that leaves no trap gives the code back. */
  lemma HitsRestore(s: DebugState, addrs: seq<u64>, hs: seq<u64>)
    requires s.breakPoints == map[] && Distinct(addrs) && AllMapped(MemOf(s), addrs)
    requires Aligned(addrs) && NoneSetAbove(addrs) && TrapHits(SetAll(s, addrs), hs)
    requires NoTrap(MemOf(StopAll(SetAll(s, addrs), hs)), addrs)
    ensures MemOf(StopAll(SetAll(s, addrs), hs)) == MemOf(s)
  {
    var cs := HitsKeep(s, addrs, hs);
    NoTrapNoPatch(MemOf(s), addrs, cs, MemOf(StopAll(SetAll(s, addrs), hs)));
  }

  // ---- hitting in ascending order ----

  ghost predicate Swept(s: DebugState, addrs: seq<u64>, a: int) {
    Among(addrs, a) && TrapAt(MemOf(s), a)
  }

  /** All breakpoints below n in ascending order, each if its trap stands when
      its turn comes. */
  ghost function Sweep(s: DebugState, addrs: seq<u64>, n: nat): seq<u64> {
    if n == 0 then []
    else
      var hs := Sweep(s, addrs, n - 1);
      if n - 1 <= MINUS_ONE && Swept(StopAll(s, hs), addrs, n - 1) then hs + [n - 1] else hs
  }

  ghost function At(s: DebugState, addrs: seq<u64>, n: nat): DebugState {
    StopAll(s, Sweep(s, addrs, n))
  }

  ghost predicate HitNow(s: DebugState, addrs: seq<u64>, n: nat) {
    n <= MINUS_ONE && Swept(At(s, addrs, n), addrs, n)
  }

  ghost predicate Armed(s: DebugState, addrs: seq<u64>) {
    forall a {:trigger Among(addrs, a)} | Among(addrs, a) :: a in s.breakPoints && Mapped(MemOf(s), a)
  }

  lemma StopWrites(s: DebugState, a: u64)
    requires a in s.breakPoints
    ensures MemOf(StopAt(s, a)) == WriteWord(MemOf(s), a, s.breakPoints[a])
    ensures StopAt(s, a).breakPoints == s.breakPoints
  {
  }

  lemma StopLast(s: DebugState, hs: seq<u64>, a: u64)
    ensures StopAll(s, hs + [a]) == StopAt(StopAll(s, hs), a)
    ensures TrapHits(s, hs + [a]) <==> TrapHits(s, hs) && a in s.breakPoints && TrapAt(MemOf(StopAll(s, hs)), a)
  {
    assert (hs + [a])[..|hs|] == hs;
  }

  lemma SweepNext(s: DebugState, addrs: seq<u64>, n: nat)
    ensures if HitNow(s, addrs, n) then n <= MINUS_ONE && Sweep(s, addrs, n + 1) == Sweep(s, addrs, n) + [n]
            else Sweep(s, addrs, n + 1) == Sweep(s, addrs, n)
  {
  }

  lemma StateNext(s: DebugState, addrs: seq<u64>, n: nat)
    requires Armed(s, addrs) && At(s, addrs, n).breakPoints == s.breakPoints
    ensures At(s, addrs, n + 1).breakPoints == s.breakPoints
    ensures HitNow(s, addrs, n) ==>
              n in s.breakPoints && TrapHits(s, Sweep(s, addrs, n + 1)) == TrapHits(s, Sweep(s, addrs, n)) &&
              MemOf(At(s, addrs, n + 1)) == WriteWord(MemOf(At(s, addrs, n)), n, s.breakPoints[n])
    ensures !HitNow(s, addrs, n) ==>
              At(s, addrs, n + 1) == At(s, addrs, n) && Sweep(s, addrs, n + 1) == Sweep(s, addrs, n)
  {
    SweepNext(s, addrs, n);
    if HitNow(s, addrs, n) {
      assert Among(addrs, n);
      StopLast(s, Sweep(s, addrs, n), n);
      StopWrites(At(s, addrs, n), n);
    }
  }

  /** The sweep is a run of hits. */
  lemma {:induction false} SweepHits(s: DebugState, addrs: seq<u64>, n: nat)
    requires Armed(s, addrs)
    ensures TrapHits(s, Sweep(s, addrs, n))
    ensures At(s, addrs, n).breakPoints == s.breakPoints && MemOf(At(s, addrs, n)).Keys == MemOf(s).Keys
  {
    if n > 0 {
      SweepHits(s, addrs, n - 1);
      StateNext(s, addrs, n - 1);
    }
  }

  ghost predicate HitsByte(s: DebugState, addrs: seq<u64>, n: nat, k: int) {
    HitNow(s, addrs, n) && CoversByte(n, k)
  }

  function ByteOf(s: DebugState, k: int): byte
    requires k in MemOf(s)
  {
    MemOf(s)[k]
  }

  /** One step of the sweep, for one byte. */
  lemma SweptByte(s: DebugState, addrs: seq<u64>, n: nat, k: int)
    requires Armed(s, addrs) && k in MemOf(s)
    ensures k in MemOf(At(s, addrs, n)) && k in MemOf(At(s, addrs, n + 1))
    ensures if HitsByte(s, addrs, n, k)
            then n in s.breakPoints && ByteOf(At(s, addrs, n + 1), k) == s.breakPoints[n][k - n]
            else ByteOf(At(s, addrs, n + 1), k) == ByteOf(At(s, addrs, n), k)
  {
    SweepHits(s, addrs, n);
    StateNext(s, addrs, n);
    if HitNow(s, addrs, n) {
      assert Among(addrs, n);
      SameMapped(MemOf(s), MemOf(At(s, addrs, n)), n);
    }
  }

  /** A byte stays until an address that reaches it is hit. */
  lemma {:induction false} SweepKeeps(s: DebugState, addrs: seq<u64>, from: nat, n: nat, k: int)
    requires Armed(s, addrs) && from <= n && k in MemOf(s)
    requires forall h: nat {:trigger HitsByte(s, addrs, h, k)} | from <= h < n :: !HitsByte(s, addrs, h, k)
    ensures k in MemOf(At(s, addrs, from)) && k in MemOf(At(s, addrs, n))
    ensures ByteOf(At(s, addrs, n), k) == ByteOf(At(s, addrs, from), k)
    decreases n - from
  {
    if from < n {
      SweepKeeps(s, addrs, from, n - 1, k);
      assert !HitsByte(s, addrs, n - 1, k);
      SweptByte(s, addrs, n - 1, k);
    } else {
      SweptByte(s, addrs, n, k);
    }
  }

  // ---- where the condition fails ----

  /** Byte k of a code of 0x55 bytes once the first n addresses are set. */
  function SetTo(addrs: seq<u64>, n: nat, k: int): byte
    requires n <= |addrs|
  {
    var i := LastCover(addrs[..n], k);
    if i == -1 then 0x55 else TRAP[k - addrs[i]]
  }

  ghost predicate SavedAs(s: DebugState, addrs: seq<u64>, j: nat, k: int)
    requires j < |addrs| && CoversByte(addrs[j], k)
  {
    addrs[j] in s.breakPoints && s.breakPoints[addrs[j]][k - addrs[j]] == SetTo(addrs, j, k)
  }

  ghost predicate Base(s: DebugState, addrs: seq<u64>) {
    && Armed(s, addrs)
    && (forall k {:trigger ByteOf(s, k)} | k in MemOf(s) :: ByteOf(s, k) == SetTo(addrs, |addrs|, k))
    && (forall j, k {:trigger SavedAs(s, addrs, j, k)} | 0 <= j < |addrs| && CoversByte(addrs[j], k) ::
          SavedAs(s, addrs, j, k))
  }

  lemma WitnessBase(addrs: seq<u64>)
    requires Distinct(addrs)
    ensures Base(SetAll(Witness(addrs), addrs), addrs)
  {
    var w := Witness(addrs);
    var s := SetAll(w, addrs);
    WitnessMapped(addrs);
    SetAllKeys(w, addrs);
    SetKeys(w, addrs);
    forall a | Among(addrs, a) ensures a in s.breakPoints && Mapped(MemOf(s), a) {
      var i :| 0 <= i < |addrs| && addrs[i] == a;
      assert Mapped(MemOf(w), addrs[i]);
      SameMapped(MemOf(w), MemOf(s), a);
    }
    forall k | k in MemOf(s) ensures ByteOf(s, k) == SetTo(addrs, |addrs|, k) { WitnessSet(addrs, k); }
    forall j, k | 0 <= j < |addrs| && CoversByte(addrs[j], k) ensures SavedAs(s, addrs, j, k) {
      WitnessSaved(addrs, j, k);
    }
  }

  lemma SetToAll(addrs: seq<u64>, k: int)
    ensures SetTo(addrs, |addrs|, k) ==
            var i := LastCover(addrs, k); if i == -1 then 0x55 else TRAP[k - addrs[i]]
  {
    assert addrs[..|addrs|] == addrs;
  }

  lemma WitnessSet(addrs: seq<u64>, k: int)
    requires k in MemOf(SetAll(Witness(addrs), addrs))
    ensures ByteOf(SetAll(Witness(addrs), addrs), k) == SetTo(addrs, |addrs|, k)
  {
    WitnessMapped(addrs);
    SetKeys(Witness(addrs), addrs);
    SetAllByte(Witness(addrs), addrs, k);
    WitnessByte(addrs, k);
    SetToAll(addrs, k);
  }

  lemma WitnessSaved(addrs: seq<u64>, j: nat, k: int)
    requires Distinct(addrs) && j < |addrs| && CoversByte(addrs[j], k)
    ensures SavedAs(SetAll(Witness(addrs), addrs), addrs, j, k)
  {
    WitnessMapped(addrs);
    SavedByte(Witness(addrs), addrs, j, k);
    WitnessByte(addrs, k);
  }

  lemma AmongAligned(addrs: seq<u64>, a: int)
    requires Aligned(addrs) && Among(addrs, a)
    ensures 0 <= a <= MINUS_ONE && FourAligned(a)
  {
    var i :| 0 <= i < |addrs| && addrs[i] == a;
    assert FourAligned(addrs[i]);
  }

  /** Two breakpoints that reach the same byte are one or neighbours. */
  lemma Neighbours(addrs: seq<u64>, i: nat, j: nat, k: int)
    requires Aligned(addrs) && i < |addrs| && j < |addrs| && CoversByte(addrs[i], k) && CoversByte(addrs[j], k)
    ensures addrs[i] == addrs[j] || FourAbove(addrs[i], addrs[j]) || FourAbove(addrs[j], addrs[i])
  {
    assert FourAligned(addrs[i]) && FourAligned(addrs[j]);
  }

  /** Where of the first n only address i reaches k, its trap shows. */
  lemma OnlyReach(addrs: seq<u64>, n: nat, i: nat, k: int)
    requires i < n <= |addrs| && CoversByte(addrs[i], k)
    requires forall l | 0 <= l < n && CoversByte(addrs[l], k) :: addrs[l] == addrs[i]
    ensures SetTo(addrs, n, k) == TRAP[k - addrs[i]]
  {
    var l := LastCover(addrs[..n], k);
    assert addrs[..n][i] == addrs[i];
    assert l >= 0 && addrs[..n][l] == addrs[l];
  }

  // ---- no trap is left behind ----

  lemma SavedIsNoTrap(s: DebugState, addrs: seq<u64>, j: nat)
    requires Base(s, addrs) && Distinct(addrs) && Aligned(addrs) && j < |addrs|
    ensures addrs[j] in s.breakPoints && s.breakPoints[addrs[j]][3] != TRAP[3]
  {
    var k := addrs[j] as int + 3;
    assert CoversByte(addrs[j], k);
    assert SavedAs(s, addrs, j, k);
    var i := LastCover(addrs[..j], k);
    if i >= 0 {
      assert addrs[..j][i] == addrs[i];
      Neighbours(addrs, i, j, k);
    }
  }

  lemma LaterMisses(s: DebugState, addrs: seq<u64>, a: int, from: nat, n: nat, k: int)
    requires Aligned(addrs) && FourAligned(a) && a < from && a <= k < a + 4
    ensures forall h: nat {:trigger HitsByte(s, addrs, h, k)} | from <= h < n :: !HitsByte(s, addrs, h, k)
  {
    forall h: nat | from <= h < n ensures !HitsByte(s, addrs, h, k) {
      if Among(addrs, h) { AmongAligned(addrs, h); }
    }
  }

  lemma HitIsGone(s: DebugState, addrs: seq<u64>, j: nat, n: nat)
    requires Base(s, addrs) && Distinct(addrs) && Aligned(addrs) && j < |addrs| && addrs[j] < n
    requires HitNow(s, addrs, addrs[j])
    ensures !TrapAt(MemOf(At(s, addrs, n)), addrs[j])
  {
    var a: nat := addrs[j];
    SavedIsNoTrap(s, addrs, j);
    AmongAligned(addrs, a);
    MappedByte(MemOf(s), a, a + 3);
    SweptByte(s, addrs, a, a + 3);
    LaterMisses(s, addrs, a, a + 1, n, a + 3);
    SweepKeeps(s, addrs, a + 1, n, a + 3);
  }

  lemma StaysGone(s: DebugState, addrs: seq<u64>, a: nat, n: nat)
    requires Armed(s, addrs) && Aligned(addrs) && Among(addrs, a) && a < n && !HitNow(s, addrs, a)
    ensures !TrapAt(MemOf(At(s, addrs, n)), a)
  {
    AmongAligned(addrs, a);
    SweepHits(s, addrs, a);
    var k :| a <= k < a + 4 && !(k in MemOf(At(s, addrs, a)) && ByteOf(At(s, addrs, a), k) == TRAP[k - a]);
    MappedByte(MemOf(s), a, k);
    LaterMisses(s, addrs, a, a + 1, n, k);
    assert !HitsByte(s, addrs, a, k);
    SweepKeeps(s, addrs, a, n, k);
  }

  lemma NoneLeft(s: DebugState, addrs: seq<u64>, n: nat)
    requires Base(s, addrs) && Distinct(addrs) && Aligned(addrs) && n > MINUS_ONE
    ensures NoTrap(MemOf(At(s, addrs, n)), addrs)
  {
    forall j | 0 <= j < |addrs| ensures !TrapAt(MemOf(At(s, addrs, n)), addrs[j]) {
      assert Among(addrs, addrs[j]);
      if HitNow(s, addrs, addrs[j]) { HitIsGone(s, addrs, j, n); } else { StaysGone(s, addrs, addrs[j], n); }
    }
  }

  // ---- a byte is lost ----

  /** x and x + 4 are breakpoints, x + 4 the later one. */
  ghost predicate Bad(addrs: seq<u64>, x: int) {
    exists i, j :: 0 <= i < j < |addrs| && addrs[i] == x && FourAbove(x, addrs[j])
  }

  lemma {:induction false} LowestBad(addrs: seq<u64>, x: nat) returns (y: nat)
    requires Bad(addrs, x)
    ensures Bad(addrs, y) && forall z: nat | z < y :: !Bad(addrs, z)
    decreases x
  {
    if z: nat :| z < x && Bad(addrs, z) {
      y := LowestBad(addrs, z);
    } else {
      y := x;
    }
  }

  /** No breakpoint a - 4: only a reaches the bytes of its trap, and it stays. */
  lemma StandsAlone(s: DebugState, addrs: seq<u64>, j: nat, k: int)
    requires Base(s, addrs) && Aligned(addrs) && j < |addrs| && addrs[j] <= k < addrs[j] as int + 4
    requires !Among(addrs, addrs[j] as int - 4)
    ensures k in MemOf(At(s, addrs, addrs[j])) && ByteOf(At(s, addrs, addrs[j]), k) == TRAP[k - addrs[j]]
  {
    var a: int := addrs[j];
    assert Among(addrs, a) && FourAligned(addrs[j]);
    MappedByte(MemOf(s), a, k);
    forall l | 0 <= l < |addrs| && CoversByte(addrs[l], k) ensures addrs[l] == a {
      Neighbours(addrs, l, j, k);
      assert Among(addrs, addrs[l]);
    }
    OnlyReach(addrs, |addrs|, j, k);
    assert ByteOf(s, k) == SetTo(addrs, |addrs|, k);
    forall h: nat | h < a ensures !HitsByte(s, addrs, h, k) {
      if Among(addrs, h) { AmongAligned(addrs, h); }
    }
    SweepKeeps(s, addrs, 0, a, k);
    assert At(s, addrs, 0) == s;
  }

  lemma SavedAgain(s: DebugState, addrs: seq<u64>, i: nat, j: nat, b: nat, k: int)
    requires Base(s, addrs) && Distinct(addrs) && Aligned(addrs) && i < j < |addrs| && FourAbove(b, addrs[i])
    requires addrs[j] == b && b + 4 <= k < b + 8
    ensures b in s.breakPoints && s.breakPoints[b][k - b] == TRAP[k - (b + 4)]
  {
    forall l | 0 <= l < j && CoversByte(addrs[l], k) ensures addrs[l] == addrs[i] {
      Neighbours(addrs, l, i, k);
      Neighbours(addrs, l, j, k);
      assert addrs[l] != addrs[j];
    }
    OnlyReach(addrs, j, i, k);
    assert SavedAs(s, addrs, j, k);
  }

  /** Nothing is hit between two neighbouring addresses. */
  lemma NoneBetween(s: DebugState, addrs: seq<u64>, b: nat, k: int)
    requires Aligned(addrs) && FourAligned(b)
    ensures forall h: nat {:trigger HitsByte(s, addrs, h, k)} | b + 1 <= h < b + 4 :: !HitsByte(s, addrs, h, k)
  {
    forall h: nat | b + 1 <= h < b + 4 ensures !HitsByte(s, addrs, h, k) {
      if Among(addrs, h) { AmongAligned(addrs, h); }
    }
  }

  lemma PutBack(s: DebugState, addrs: seq<u64>, i: nat, j: nat, b: nat, k: int)
    requires Base(s, addrs) && Distinct(addrs) && Aligned(addrs) && i < j < |addrs| && FourAbove(b, addrs[i])
    requires addrs[j] == b && HitNow(s, addrs, b) && b + 4 <= k < b + 8
    ensures k in MemOf(s) && k in MemOf(At(s, addrs, b + 1)) && ByteOf(At(s, addrs, b + 1), k) == TRAP[k - (b + 4)]
  {
    assert Among(addrs, b);
    MappedByte(MemOf(s), b, k);
    SavedAgain(s, addrs, i, j, b, k);
    SweptByte(s, addrs, b, k);
  }

  /** Breakpoint b, set after b + 4, was hit and has put the trap back. */
  lemma StandsAgain(s: DebugState, addrs: seq<u64>, i: nat, j: nat, b: nat, k: int)
    requires Base(s, addrs) && Distinct(addrs) && Aligned(addrs) && i < j < |addrs| && FourAbove(b, addrs[i])
    requires addrs[j] == b && HitNow(s, addrs, b) && b + 4 <= k < b + 8
    ensures k in MemOf(At(s, addrs, b + 4)) && ByteOf(At(s, addrs, b + 4), k) == TRAP[k - (b + 4)]
  {
    PutBack(s, addrs, i, j, b, k);
    assert FourAligned(addrs[j]);
    NoneBetween(s, addrs, b, k);
    SweepKeeps(s, addrs, b + 1, b + 4, k);
  }

  lemma TrapAlone(s: DebugState, addrs: seq<u64>, j: nat)
    requires Base(s, addrs) && Aligned(addrs) && j < |addrs| && !Among(addrs, addrs[j] as int - 4)
    ensures TrapAt(MemOf(At(s, addrs, addrs[j])), addrs[j])
  {
    var a, m := addrs[j] as int, MemOf(At(s, addrs, addrs[j]));
    forall k | a <= k < a + 4 ensures k in m && m[k] == TRAP[k - a] { StandsAlone(s, addrs, j, k); }
  }

  lemma TrapAgain(s: DebugState, addrs: seq<u64>, i: nat, j: nat, b: nat)
    requires Base(s, addrs) && Distinct(addrs) && Aligned(addrs) && i < j < |addrs| && FourAbove(b, addrs[i])
    requires addrs[j] == b && HitNow(s, addrs, b)
    ensures TrapAt(MemOf(At(s, addrs, b + 4)), b + 4)
  {
    var m := MemOf(At(s, addrs, b + 4));
    forall k | b + 4 <= k < b + 8 ensures k in m && m[k] == TRAP[k - (b + 4)] { StandsAgain(s, addrs, i, j, b, k); }
  }

  /** Up to the lowest bad address every breakpoint's trap stands when its turn
      comes. */
  lemma {:induction false} Stands(s: DebugState, addrs: seq<u64>, x: nat, i: nat)
    requires Base(s, addrs) && Distinct(addrs) && Aligned(addrs)
    requires (forall z: nat {:trigger Bad(addrs, z)} | z < x :: !Bad(addrs, z)) && i < |addrs| && addrs[i] <= x
    ensures HitNow(s, addrs, addrs[i])
    decreases addrs[i]
  {
    assert Among(addrs, addrs[i]);
    if Among(addrs, addrs[i] as int - 4) {
      var j :| 0 <= j < |addrs| && addrs[j] == addrs[i] as int - 4;
      Stands(s, addrs, x, j);
      assert !Bad(addrs, addrs[j]);
      TrapAgain(s, addrs, i, j, addrs[j]);
    } else {
      TrapAlone(s, addrs, i);
    }
  }

  lemma SavedOriginal(s: DebugState, addrs: seq<u64>, x: nat, i: nat, j: nat)
    requires Base(s, addrs) && Distinct(addrs) && Aligned(addrs) && i < j < |addrs| && addrs[i] == x
    requires FourAbove(x, addrs[j])
    ensures x in s.breakPoints && s.breakPoints[x][6] == 0x55
  {
    var k := x + 6;
    assert CoversByte(addrs[i], k);
    assert SavedAs(s, addrs, i, k);
    forall l | 0 <= l < i ensures !CoversByte(addrs[l], k) {
      if CoversByte(addrs[l], k) { Neighbours(addrs, l, i, k); }
      assert addrs[l] != addrs[i] && addrs[l] != addrs[j];
    }
    NoneReach(addrs, i, k);
  }

  lemma CodeBack(s: DebugState, addrs: seq<u64>, x: nat, i: nat, j: nat)
    requires Base(s, addrs) && Distinct(addrs) && Aligned(addrs) && i < j < |addrs| && addrs[i] == x
    requires FourAbove(x, addrs[j]) && HitNow(s, addrs, x)
    ensures x + 6 in MemOf(s) && x + 6 in MemOf(At(s, addrs, x + 1)) && ByteOf(At(s, addrs, x + 1), x + 6) == 0x55
  {
    assert Among(addrs, x);
    MappedByte(MemOf(s), x, x + 6);
    SavedOriginal(s, addrs, x, i, j);
    SweptByte(s, addrs, x, x + 6);
  }

  /** Hitting x gives back the code at x + 4, and the trap there is no more. */
  lemma TrapGone(s: DebugState, addrs: seq<u64>, x: nat, i: nat, j: nat)
    requires Base(s, addrs) && Distinct(addrs) && Aligned(addrs) && i < j < |addrs| && addrs[i] == x
    requires FourAbove(x, addrs[j]) && HitNow(s, addrs, x)
    ensures !HitNow(s, addrs, x + 4)
  {
    CodeBack(s, addrs, x, i, j);
    assert FourAligned(addrs[i]);
    BackUntilNext(s, addrs, x);
    if HitNow(s, addrs, x + 4) { TrapShows(MemOf(At(s, addrs, x + 4)), x + 4); }
  }

  lemma BackUntilNext(s: DebugState, addrs: seq<u64>, x: nat)
    requires Armed(s, addrs) && Aligned(addrs) && FourAligned(x) && x + 6 in MemOf(s)
    ensures x + 6 in MemOf(At(s, addrs, x + 1)) && x + 6 in MemOf(At(s, addrs, x + 4))
    ensures ByteOf(At(s, addrs, x + 4), x + 6) == ByteOf(At(s, addrs, x + 1), x + 6)
  {
    NoneBetween(s, addrs, x, x + 6);
    SweepKeeps(s, addrs, x + 1, x + 4, x + 6);
  }

  lemma TrapShows(m: Mem, a: int)
    requires TrapAt(m, a)
    ensures a + 2 in m && m[a + 2] == 0x20
  {
  }

  lemma NoneReach(addrs: seq<u64>, n: nat, k: int)
    requires n <= |addrs| && forall l | 0 <= l < n :: !CoversByte(addrs[l], k)
    ensures SetTo(addrs, n, k) == 0x55
  {
    var l := LastCover(addrs[..n], k);
    if l >= 0 { assert addrs[..n][l] == addrs[l]; }
  }

  /** With a breakpoint at x + 4 among the first n, byte x + 8 is a zero of one
      trap or the other. */
  lemma ZeroByte(addrs: seq<u64>, n: nat, j: nat, x: nat)
    requires Aligned(addrs) && j < n <= |addrs| && FourAbove(x, addrs[j])
    ensures SetTo(addrs, n, x + 8) == 0
  {
    var l := LastCover(addrs[..n], x + 8);
    assert addrs[..n][j] == addrs[j] && CoversByte(addrs[j], x + 8);
    assert addrs[..n][l] == addrs[l];
    Neighbours(addrs, l, j, x + 8);
  }

  lemma MissesBefore(s: DebugState, addrs: seq<u64>, x: nat, k: int, h: nat)
    requires Aligned(addrs) && FourAligned(x) && !HitNow(s, addrs, x + 4) && x + 8 <= k < x + 12 && h < x + 8
    ensures !HitsByte(s, addrs, h, k)
  {
    if Among(addrs, h) { AmongAligned(addrs, h); }
  }

  lemma UntouchedBefore(s: DebugState, addrs: seq<u64>, x: nat, k: int)
    requires Armed(s, addrs) && Aligned(addrs) && FourAligned(x) && !HitNow(s, addrs, x + 4)
    requires x + 8 <= k < x + 12 && k in MemOf(s)
    ensures k in MemOf(At(s, addrs, x + 8)) && ByteOf(At(s, addrs, x + 8), k) == ByteOf(s, k)
  {
    forall h: nat | h < x + 8 ensures !HitsByte(s, addrs, h, k) { MissesBefore(s, addrs, x, k, h); }
    SweepKeeps(s, addrs, 0, x + 8, k);
    assert Sweep(s, addrs, 0) == [];
  }

  /** A trap that stands at x + 8 was set after the one at x + 4. */
  lemma SetAfter(addrs: seq<u64>, j: nat, x: nat) returns (l: nat)
    requires Aligned(addrs) && j < |addrs| && FourAbove(x, addrs[j]) && SetTo(addrs, |addrs|, x + 10) == TRAP[2]
    ensures j < l < |addrs| && addrs[l] == x + 8
  {
    assert CoversByte(addrs[j], x + 10);
    SetToAll(addrs, x + 10);
    l := LastCover(addrs, x + 10);
    Neighbours(addrs, l, j, x + 10);
  }

  lemma LostAgain(s: DebugState, addrs: seq<u64>, x: nat, j: nat)
    requires Base(s, addrs) && Aligned(addrs) && j < |addrs| && FourAligned(x) && FourAbove(x, addrs[j])
    requires !HitNow(s, addrs, x + 4) && HitNow(s, addrs, x + 8)
    ensures x + 8 in s.breakPoints && s.breakPoints[x + 8][0] == 0
  {
    assert Among(addrs, x + 8);
    MappedByte(MemOf(s), x + 8, x + 10);
    UntouchedBefore(s, addrs, x, x + 10);
    assert ByteOf(At(s, addrs, x + 8), x + 10) == TRAP[2];
    var l := SetAfter(addrs, j, x);
    assert CoversByte(addrs[l], x + 8);
    assert SavedAs(s, addrs, l, x + 8);
    ZeroByte(addrs, l, j, x);
  }

  /** From then on byte x + 8 is no byte of the code. */
  lemma LostByte(s: DebugState, addrs: seq<u64>, x: nat, j: nat, n: nat)
    requires Base(s, addrs) && Aligned(addrs) && j < |addrs| && FourAligned(x) && FourAbove(x, addrs[j])
    requires !HitNow(s, addrs, x + 4) && n > x + 8
    ensures x + 8 in MemOf(s) && x + 8 in MemOf(At(s, addrs, n)) && ByteOf(At(s, addrs, n), x + 8) == 0
  {
    assert Among(addrs, addrs[j]);
    MappedByte(MemOf(s), addrs[j], x + 8);
    UntouchedBefore(s, addrs, x, x + 8);
    ZeroByte(addrs, |addrs|, j, x);
    assert ByteOf(s, x + 8) == SetTo(addrs, |addrs|, x + 8);
    if HitNow(s, addrs, x + 8) { LostAgain(s, addrs, x, j); }
    SweptByte(s, addrs, x + 8, x + 8);
    LaterMisses(s, addrs, x + 8, x + 9, n, x + 8);
    SweepKeeps(s, addrs, x + 9, n, x + 8);
  }

  /** With a bad pair a run of hits that leaves no trap loses a byte of code. */
  lemma BadLoses(addrs: seq<u64>, i0: nat, j0: nat) returns (hs: seq<u64>)
    requires Distinct(addrs) && Aligned(addrs) && i0 < j0 < |addrs| && FourAbove(addrs[i0], addrs[j0])
    ensures AllMapped(MemOf(Witness(addrs)), addrs)
    ensures TrapHits(SetAll(Witness(addrs), addrs), hs)
    ensures NoTrap(MemOf(StopAll(SetAll(Witness(addrs), addrs), hs)), addrs)
    ensures MemOf(StopAll(SetAll(Witness(addrs), addrs), hs)) != MemOf(Witness(addrs))
  {
    var s := SetAll(Witness(addrs), addrs);
    var x := LowestBad(addrs, addrs[i0]);
    var i, j :| 0 <= i < j < |addrs| && addrs[i] == x && FourAbove(x, addrs[j]);
    var n := MINUS_ONE + 16;
    hs := Sweep(s, addrs, n);
    WitnessMapped(addrs);
    WitnessBase(addrs);
    SweepHits(s, addrs, n);
    NoneLeft(s, addrs, n);
    Stands(s, addrs, x, i);
    TrapGone(s, addrs, x, i, j);
    assert FourAligned(addrs[i]);
    LostByte(s, addrs, x, j, n);
    SetKeys(Witness(addrs), addrs);
    WitnessByte(addrs, x + 8);
  }

  /** Hits of breakpoints at aligned addresses, in any order, that leave no trap
      give back every code exactly when no address was set four bytes above one
      set before it. */
  lemma HitsRestoreExactly(addrs: seq<u64>)
    requires Distinct(addrs) && Aligned(addrs)
    ensures (forall s: DebugState, hs |
               && s.breakPoints == map[] && AllMapped(MemOf(s), addrs) && TrapHits(SetAll(s, addrs), hs)
               && NoTrap(MemOf(StopAll(SetAll(s, addrs), hs)), addrs) ::
               MemOf(StopAll(SetAll(s, addrs), hs)) == MemOf(s))
            <==> NoneSetAbove(addrs)
  {
    if NoneSetAbove(addrs) {
      forall s: DebugState, hs |
        && s.breakPoints == map[] && AllMapped(MemOf(s), addrs) && TrapHits(SetAll(s, addrs), hs)
        && NoTrap(MemOf(StopAll(SetAll(s, addrs), hs)), addrs)
        ensures MemOf(StopAll(SetAll(s, addrs), hs)) == MemOf(s)
      { HitsRestore(s, addrs, hs); }
    } else {
      var i, j :| 0 <= i < j < |addrs| && FourAbove(addrs[i], addrs[j]);
      var hs := BadLoses(addrs, i, j);
      assert Witness(addrs).breakPoints == map[];
    }
  }
}
