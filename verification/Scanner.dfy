/** The scanner itself: areas with heap buffers, one hit table, and the loops
    that update them in place.  What malloc has handed out and free has not
    taken back is the ghost set heap; every buffer access and every free
    requires its buffer to be in it. */
module Scanner {
  import opened Memory
  import opened ScanModel
  import opened ScanHistory
  import opened ScanRestore
  import opened ScanSession

  /** OBSERVER_AREA. */
  class Area {
    const start: int
    const length: nat
    const name: string
    var invalid: bool
    var memPtr: array<Word>
    var cmpPtr: array<bool>

    constructor (start: int, length: nat, name: string)
      ensures this.start == start && this.length == length && this.name == name
    {
      this.start, this.length, this.name := start, length, name;
      invalid, memPtr, cmpPtr := true, new Word[0], new bool[0];
    }

    function Fixed(): Info { Info(start, length / 8, name) }

    ghost function State(): AreaState
      reads this, memPtr, cmpPtr
    {
      if invalid then Gone else Watched(memPtr[..], cmpPtr[..])
    }
  }

  class MemChecker {
    const areas: seq<Area>
    var hits: nat
    const table: array<Hit>
    ghost var heap: set<object>

    constructor (areas: seq<Area>)
      requires forall j, k | 0 <= j < k < |areas| :: areas[j] != areas[k]
      ensures this.areas == areas && hits == 0 && table.Length == MAX_HITS && fresh(table) && heap == {}
    {
      this.areas, hits, heap := areas, 0, {};
      var zero: Word := [0, 0, 0, 0, 0, 0, 0, 0];
      table := new Hit[MAX_HITS](_ => Hit(0, zero, zero, ""));
    }

    function Infos(): (infos: seq<Info>)
      ensures |infos| == |areas|
      ensures forall k | 0 <= k < |areas| :: infos[k] == Info(areas[k].start, areas[k].length / 8, areas[k].name)
    {
      seq(|areas|, k requires 0 <= k < |areas| => areas[k].Fixed())
    }

    ghost function Pointers(): (ps: seq<Pair>)
      reads areas
      ensures |ps| == |areas|
      ensures forall k | 0 <= k < |areas| :: ps[k] == (areas[k].memPtr, areas[k].cmpPtr)
    {
      seq(|areas|, k requires 0 <= k < |areas| reads areas => (areas[k].memPtr, areas[k].cmpPtr))
    }

    ghost function Buffers(): set<object>
      reads areas
    {
      (set a | a in areas :: a.memPtr as object) + (set a | a in areas :: a.cmpPtr as object)
    }

    ghost predicate Separate()
      reads areas
    {
      forall j, k | 0 <= j < k < |areas| ::
        areas[j] != areas[k] && areas[j].memPtr != areas[k].memPtr && areas[j].cmpPtr != areas[k].cmpPtr
    }

    /** A valid area owns two allocated buffers of one entry per word. */
    ghost predicate Owns(k: int)
      requires 0 <= k < |areas|
      reads this`heap, areas
    {
      var a := areas[k];
      && a.memPtr.Length == a.cmpPtr.Length == a.length / 8
      && (!a.invalid ==> a.memPtr in heap && a.cmpPtr in heap)
    }

    ghost predicate Valid()
      reads this`heap, areas
    {
      && table.Length == MAX_HITS
      && Separate()
      && forall k | 0 <= k < |areas| :: Owns(k)
    }

    ghost function States(): (sts: seq<AreaState>)
      requires Valid()
      reads this`heap, areas, Buffers()
      ensures AllFit(Infos(), sts)
      ensures forall k | 0 <= k < |areas| :: sts[k] == areas[k].State()
    {
      assert forall k | 0 <= k < |areas| :: Fits(areas[k].State(), Infos()[k].words) by {
        forall k | 0 <= k < |areas| ensures Fits(areas[k].State(), Infos()[k].words) {
          assert Owns(k) && Infos()[k] == areas[k].Fixed();
        }
      }
      seq(|areas|, k requires 0 <= k < |areas| reads areas, Buffers() => areas[k].State())
    }

    /** hits and table hold these rows, the table as far as it reaches. */
    ghost predicate Recorded(rows: seq<Hit>)
      reads this, table
    {
      hits == |rows| && TableOf(table[..], rows)
    }

    // ---- the C heap ----

    ghost method Free(block: object)
      requires block in heap
      modifies this`heap
      ensures heap == old(heap) - {block}
    {
      heap := heap - {block};
    }

    function Load<T>(p: array<T>, i: nat): T
      requires p in heap && i < p.Length
      reads this`heap, p
    {
      p[i]
    }

    method Store<T>(p: array<T>, i: nat, v: T)
      requires p in heap && i < p.Length
      modifies p
      ensures p[..] == old(p[..])[i := v]
    {
      p[i] := v;
    }

    /** fread of a whole area: all of it, or a short read. */
    method ReadMem(p: array<Word>, read: Read) returns (ok: bool)
      requires p in heap && ReadFits(read, p.Length)
      modifies p
      ensures ok == read.Some?
      ensures ok ==> p[..] == read.value
    {
      ok := read.Some?;
      if ok {
        forall i | 0 <= i < p.Length { p[i] := read.value[i]; }
      }
    }

    /** Two new buffers for an area, filled by its first read. */
    method InitArea(k: nat, read: Read)
      requires k < |areas| && ReadFits(read, areas[k].length / 8)
      modifies areas[k], this`heap
      ensures Owns(k) && fresh(areas[k].memPtr) && fresh(areas[k].cmpPtr)
      ensures heap == old(heap) + {areas[k].memPtr, areas[k].cmpPtr}
      ensures areas[k].State() == After(read, [])
    {
      var area := areas[k];
      area.memPtr := new Word[area.length / 8];
      area.cmpPtr := new bool[area.length / 8](_ => false);
      heap := heap + {area.memPtr, area.cmpPtr};
      var ok := ReadMem(area.memPtr, read);
      if !ok {
        area.invalid := true;
      } else {
        area.invalid := false;
      }
    }

    method InitialMemoryRead(seen: seq<Read>)
      requires forall j, k | 0 <= j < k < |areas| :: areas[j] != areas[k]
      requires table.Length == MAX_HITS && SeenFit(Infos(), seen)
      modifies areas, this`heap
      ensures Valid() && fresh(Buffers())
      ensures forall k | 0 <= k < |areas| :: areas[k].memPtr in heap && areas[k].cmpPtr in heap
      ensures States() == InitialStates(Infos(), seen)
    {
      var areaI := 0;
      while areaI < |areas|
        invariant 0 <= areaI <= |areas|
        invariant forall j | 0 <= j < areaI ::
          && fresh(areas[j].memPtr) && fresh(areas[j].cmpPtr) && Owns(j)
          && areas[j].memPtr in heap && areas[j].cmpPtr in heap
          && areas[j].State() == After(seen[j], [])
        invariant forall j, k | 0 <= j < k < areaI ::
          areas[j].memPtr != areas[k].memPtr && areas[j].cmpPtr != areas[k].cmpPtr
      {
        InitArea(areaI, seen[areaI]);
        areaI := areaI + 1;
      }
    }

    // ---- one round ----

    /** One word: skipped when already out, marked out when the round drops it,
        recorded and re-snapshot when the round keeps it. */
    method FilterWord(area: Area, tmp: array<Word>, i: nat, mode: Mode, ghost st: AreaState, ghost read: Read,
                      ghost rows: seq<Hit>)
      returns (ghost rows': seq<Hit>)
      requires i < area.memPtr.Length == area.cmpPtr.Length == tmp.Length && tmp != area.memPtr
      requires area.memPtr in heap && area.cmpPtr in heap && tmp in heap
      requires st.Watched? && |st.snap| == |st.out| == tmp.Length && read == Some(tmp[..])
      requires area.cmpPtr[i] == st.out[i] && area.memPtr[i] == st.snap[i]
      requires table.Length == MAX_HITS && Recorded(rows)
      modifies this`hits, table, area.memPtr, area.cmpPtr
      ensures var kept := !st.out[i] && (st.snap[i] != read.value[i] <==> mode == Changed);
              && area.cmpPtr[..] == old(area.cmpPtr[..])[i := !kept]
              && area.memPtr[..] == old(area.memPtr[..])[i := if kept then read.value[i] else st.snap[i]]
              && rows' == if kept then rows + [Hit(area.start + 8 * i, st.snap[i], read.value[i], area.name)] else rows
      ensures Recorded(rows')
    {
      rows' := rows;
      if Load(area.cmpPtr, i) {
        return; // dropped by an earlier round
      }
      match mode {
        case Changed =>
          if Load(area.memPtr, i) == Load(tmp, i) {
            Store(area.cmpPtr, i, true);
            return;
          }
        case Unchanged =>
          if Load(area.memPtr, i) != Load(tmp, i) {
            Store(area.cmpPtr, i, true);
            return;
          }
      }
      TableGrows(table[..], rows, HitOf(area.Fixed(), st, read, i));
      rows' := rows + [HitOf(area.Fixed(), st, read, i)];
      if hits < MAX_HITS {
        table[hits] := Hit(area.start + 8 * i, Load(area.memPtr, i), Load(tmp, i), area.name);
      }
      hits := hits + 1;
      Store(area.memPtr, i, Load(tmp, i));
    }

    /** One turn of the word loop. */
    method WordTurn(area: Area, tmp: array<Word>, i: nat, mode: Mode, ghost st: AreaState, ghost read: Read,
                    ghost rows0: seq<Hit>, ghost rows: seq<Hit>)
      returns (ghost rows': seq<Hit>)
      requires i < area.memPtr.Length == area.cmpPtr.Length == tmp.Length == area.length / 8 && tmp != area.memPtr
      requires area.memPtr in heap && area.cmpPtr in heap && tmp in heap
      requires st.Watched? && |st.snap| == |st.out| == tmp.Length && read == Some(tmp[..])
      requires Halfway(st, mode, read, i, area.memPtr[..], area.cmpPtr[..])
      requires rows == rows0 + AreaRows(area.Fixed(), st, mode, read, i)
      requires table.Length == MAX_HITS && Recorded(rows)
      modifies this`hits, table, area.memPtr, area.cmpPtr
      ensures Halfway(st, mode, read, i + 1, area.memPtr[..], area.cmpPtr[..])
      ensures rows' == rows0 + AreaRows(area.Fixed(), st, mode, read, i + 1) && Recorded(rows')
    {
      NextRow(rows0, area.Fixed(), st, mode, read, i);
      NextWord(st, mode, read, i, area.memPtr[..], area.cmpPtr[..]);
      rows' := FilterWord(area, tmp, i, mode, st, read, rows);
    }

    /** All words of an area against its new contents in tmp. */
    method FilterWords(area: Area, tmp: array<Word>, mode: Mode, ghost st: AreaState, ghost read: Read,
                       ghost rows0: seq<Hit>)
      requires area.memPtr.Length == area.cmpPtr.Length == tmp.Length == area.length / 8 && tmp != area.memPtr
      requires area.memPtr in heap && area.cmpPtr in heap && tmp in heap
      requires read == Some(tmp[..]) && st.Watched? && st.snap == area.memPtr[..] && st.out == area.cmpPtr[..]
      requires table.Length == MAX_HITS && Recorded(rows0)
      modifies this`hits, table, area.memPtr, area.cmpPtr
      ensures var f := Filter(st, mode, read);
              area.memPtr[..] == f.snap && area.cmpPtr[..] == f.out
      ensures var rows := rows0 + AreaRows(area.Fixed(), st, mode, read, tmp.Length);
              Recorded(rows)
    {
      ghost var rows := rows0;
      var i := 0;
      while i < tmp.Length
        invariant 0 <= i <= tmp.Length
        invariant read == Some(tmp[..])
        invariant Halfway(st, mode, read, i, area.memPtr[..], area.cmpPtr[..])
        invariant rows == rows0 + AreaRows(area.Fixed(), st, mode, read, i)
        invariant Recorded(rows)
      {
        rows := WordTurn(area, tmp, i, mode, st, read, rows0, rows);
        i := i + 1;
      }
      FilterIs(st, mode, read, area.memPtr[..], area.cmpPtr[..]);
    }

    /** The body of the area loop. */
    method FilterArea(k: nat, mode: Mode, read: Read, ghost st: AreaState, ghost rows0: seq<Hit>)
      requires Valid() && k < |areas| && !areas[k].invalid && ReadFits(read, areas[k].length / 8)
      requires st == areas[k].State() && Fits(st, areas[k].length / 8)
      requires Recorded(rows0)
      modifies this`hits, this`heap, table, areas[k], areas[k].memPtr, areas[k].cmpPtr
      ensures areas[k].memPtr == old(areas[k].memPtr) && areas[k].cmpPtr == old(areas[k].cmpPtr)
      ensures heap == old(heap)
      ensures areas[k].State() == Filter(st, mode, read)
      ensures var rows := rows0 + AreaRows(areas[k].Fixed(), st, mode, read, areas[k].length / 8);
              Recorded(rows)
    {
      assert Owns(k);
      var area := areas[k];
      var tmp := new Word[area.length / 8];
      heap := heap + {tmp};
      var ok := ReadMem(tmp, read);
      if !ok {
        area.invalid := true;
        NoRows(area.Fixed(), st, mode, read, area.length / 8);
        assert rows0 + [] == rows0;
      } else {
        assert read == Some(tmp[..]);
        FilterWords(area, tmp, mode, st, read, rows0);
      }
      Free(tmp);
    }

    /** Area k is released if its words are all out. */
    method ReleaseArea(k: nat)
      requires Valid() && k < |areas|
      modifies areas[k], this`heap
      ensures Valid()
      ensures areas[k].memPtr == old(areas[k].memPtr) && areas[k].cmpPtr == old(areas[k].cmpPtr)
      ensures States() == old(States())[k := Release(old(States())[k])]
      ensures heap == old(heap) - if States()[k] != old(States())[k] then {areas[k].memPtr, areas[k].cmpPtr} else {}
    {
      assert Owns(k);
      var area := areas[k];
      if area.invalid {
        return;
      }
      var allInvalid := true;
      var i := 0;
      while i < area.length / 8
        invariant 0 <= i <= area.length / 8
        invariant allInvalid && forall j | 0 <= j < i :: area.cmpPtr[j]
      {
        if !Load(area.cmpPtr, i) {
          allInvalid := false;
          break;
        }
        i := i + 1;
      }
      if !allInvalid {
        assert !area.cmpPtr[..][i];
        return;
      }
      Free(area.memPtr);
      Free(area.cmpPtr);
      area.invalid := true;
      forall j | 0 <= j < |areas| ensures Owns(j) { assert old(Owns(j)); }
    }

    /** One turn of the releasing loop. */
    method ReleaseTurn(areaI: nat, ghost before: seq<AreaState>, ghost heap0: set<object>)
      requires Valid() && areaI < |areas| == |before| && States() == ReleaseFirst(before, areaI)
      requires FreedFirst(Pointers(), before, areaI, heap0, heap)
      modifies areas, this`heap
      ensures Valid() && Buffers() == old(Buffers()) && Pointers() == old(Pointers())
      ensures States() == ReleaseFirst(before, areaI + 1)
      ensures FreedFirst(Pointers(), before, areaI + 1, heap0, heap)
    {
      ghost var ps, heap1 := Pointers(), heap;
      assert NoneShared(ps);
      ReleaseOneMore(before, areaI);
      ReleaseArea(areaI);
      assert Pointers() == ps;
      FreedOneMore(ps, before, areaI, heap0, heap1, heap);
    }

    method InvalidateMemory(ghost before: seq<AreaState>)
      requires Valid() && before == States()
      modifies areas, this`heap
      ensures Valid() && Buffers() == old(Buffers()) && Pointers() == old(Pointers())
      ensures States() == ReleaseFirst(before, |areas|)
      ensures FreedFirst(Pointers(), before, |areas|, old(heap), heap)
    {
      var areaI := 0;
      while areaI < |areas|
        invariant 0 <= areaI <= |areas|
        invariant Valid() && Buffers() == old(Buffers()) && Pointers() == old(Pointers())
        invariant States() == ReleaseFirst(before, areaI)
        invariant FreedFirst(Pointers(), before, areaI, old(heap), heap)
      {
        ReleaseTurn(areaI, before, old(heap));
        areaI := areaI + 1;
      }
    }

    /** One turn of the area loop: an invalid area is passed over. */
    method FilterNext(k: nat, mode: Mode, read: Read, ghost st: AreaState, ghost rows0: seq<Hit>)
      returns (ghost rows: seq<Hit>)
      requires Valid() && k < |areas| && ReadFits(read, areas[k].length / 8)
      requires st == States()[k]
      requires Recorded(rows0)
      modifies this`hits, this`heap, table, areas, Buffers()
      ensures Valid() && heap == old(heap) && Buffers() == old(Buffers()) && Pointers() == old(Pointers())
      ensures States() == old(States())[k := Filter(st, mode, read)]
      ensures rows == rows0 + AreaRows(Infos()[k], st, mode, read, Infos()[k].words)
      ensures Recorded(rows)
    {
      assert Owns(k);
      rows := rows0 + AreaRows(Infos()[k], st, mode, read, Infos()[k].words);
      if areas[k].invalid {
        assert rows == rows0;
      } else {
        FilterArea(k, mode, read, st, rows0);
        forall j | 0 <= j < |areas| ensures Owns(j) { assert old(Owns(j)); }
        forall j | 0 <= j < |areas| && j != k ensures areas[j].State() == old(areas[j].State()) { }
      }
    }

    /** The first n areas are filtered and these are their rows. */
    ghost predicate Filtered(sts: seq<AreaState>, mode: Mode, seen: seq<Read>, n: nat, rows: seq<Hit>)
      requires Valid() && SeenFit(Infos(), seen) && AllFit(Infos(), sts) && n <= |areas|
      reads this, table, areas, Buffers()
    {
      && States() == FilterFirst(Infos(), sts, mode, seen, n)
      && rows == RoundRows(Infos(), sts, mode, seen, n) && Recorded(rows)
    }

    method FilterTurn(areaI: nat, mode: Mode, seen: seq<Read>, ghost sts: seq<AreaState>, ghost rows0: seq<Hit>)
      returns (ghost rows: seq<Hit>)
      requires Valid() && areaI < |areas| && SeenFit(Infos(), seen) && AllFit(Infos(), sts)
      requires Filtered(sts, mode, seen, areaI, rows0)
      modifies this`hits, this`heap, table, areas, Buffers()
      ensures Valid() && heap == old(heap) && Buffers() == old(Buffers()) && Pointers() == old(Pointers())
      ensures Filtered(sts, mode, seen, areaI + 1, rows)
    {
      FilterOneMore(Infos(), sts, mode, seen, areaI);
      RowsOneMore(Infos(), sts, mode, seen, areaI);
      rows := FilterNext(areaI, mode, seen[areaI], sts[areaI], rows0);
    }

    method FilterAll(mode: Mode, seen: seq<Read>, ghost sts: seq<AreaState>) returns (ghost rows: seq<Hit>)
      requires Valid() && SeenFit(Infos(), seen) && sts == States() && Recorded([])
      modifies this`hits, this`heap, table, areas, Buffers()
      ensures Valid() && heap == old(heap) && Buffers() == old(Buffers()) && Pointers() == old(Pointers())
      ensures Filtered(sts, mode, seen, |areas|, rows)
    {
      FilterNone(Infos(), sts, mode, seen);
      rows := [];
      var areaI := 0;
      while areaI < |areas|
        invariant 0 <= areaI <= |areas|
        invariant Valid() && heap == old(heap) && Buffers() == old(Buffers()) && Pointers() == old(Pointers())
        invariant Filtered(sts, mode, seen, areaI, rows)
      {
        rows := FilterTurn(areaI, mode, seen, sts, rows);
        areaI := areaI + 1;
      }
    }

    /** Fewer than 300 hits are printed. */
    method ListHits(ghost rows: seq<Hit>) returns (listed: seq<Hit>)
      requires table.Length == MAX_HITS && Recorded(rows)
      ensures listed == if |rows| < MAX_HITS then rows else []
    {
      TableStarts(table[..], rows);
      listed := [];
      if hits >= MAX_HITS {
        return;
      }
      for i := 0 to hits
        invariant listed == table[..][..i]
      {
        listed := listed + [table[i]];
      }
    }

    /** A round without its printing: hits, table, snapshots, bitmaps and
        validity after it, and which buffers it frees: both of each area that it
        read and found without a live word.  Areas it could not read keep
        theirs. */
    method Round(mode: Mode, seen: seq<Read>) returns (ghost rows: seq<Hit>)
      requires Valid() && SeenFit(Infos(), seen)
      modifies this`hits, this`heap, table, areas, Buffers()
      ensures Valid() && Buffers() == old(Buffers())
      ensures States() == ScanAll(Infos(), old(States()), mode, seen)
      ensures rows == RoundRows(Infos(), old(States()), mode, seen, |areas|) && Recorded(rows)
      ensures Pointers() == old(Pointers())
      ensures FreedByRound(Pointers(), old(States()), seen, States(), old(heap), heap)
    {
      ghost var sts := States();
      FilterThenRelease(Infos(), sts, mode, seen);
      hits := 0;
      assert table[..][..0] == [];
      rows := FilterAll(mode, seen, sts);
      InvalidateMemory(States());
      RoundFrees(Pointers(), Infos(), sts, mode, seen, old(heap), heap);
    }

    /** checkForChanges: a round, and fewer than 300 hits printed. */
    method CheckForChanges(mode: Mode, seen: seq<Read>) returns (listed: seq<Hit>)
      requires Valid() && SeenFit(Infos(), seen)
      modifies this`hits, this`heap, table, areas, Buffers()
      ensures Valid() && Buffers() == old(Buffers())
      ensures States() == ScanAll(Infos(), old(States()), mode, seen)
      ensures var rows := RoundRows(Infos(), old(States()), mode, seen, |areas|);
              Recorded(rows) && listed == if |rows| < MAX_HITS then rows else []
      ensures Pointers() == old(Pointers())
      ensures FreedByRound(Pointers(), old(States()), seen, States(), old(heap), heap)
    {
      ghost var rows := Round(mode, seen);
      listed := ListHits(rows);
    }

    // ---- the other commands ----

    method WriteMemory(m: Mem, address: int, value: Word) returns (m': Mem)
      ensures m' == WriteWord(m, address, value)
    {
      m' := WriteWord(m, address, value);
    }

    method RestoreMemory(m: Mem) returns (m': Mem)
      requires table.Length == MAX_HITS
      ensures m' == Restored(m, hits, table[..])
    {
      m' := m;
      if hits > MAX_HITS {
        return; // too many hits
      }
      for i := 0 to hits
        invariant m' == RestoreRows(m, table[..i])
      {
        assert table[..i + 1][..i] == table[..i];
        m' := WriteWord(m', table[i].addr, table[i].orig);
      }
    }

    method ObserveMemory(m: Mem, garbage: Word) returns (values: seq<Word>)
      requires table.Length == MAX_HITS
      ensures values == if hits > MAX_HITS then [] else Shown(m, table[..], garbage, hits)
    {
      values := [];
      if hits > MAX_HITS {
        return; // too many hits
      }
      ghost var rows := table[..];
      var readValue := garbage;
      for i := 0 to hits
        invariant values == Shown(m, rows, garbage, i)
        invariant readValue == if i == 0 then garbage else values[i - 1]
      {
        if Mapped(m, table[i].addr) {
          readValue := ReadWord(m, table[i].addr);
        }
        values := values + [readValue];
      }
    }

    /** One command on memory m. */
    method Execute(c: Command, m: Mem, garbage: Word, ghost rows: seq<Hit>) returns (r: Record)
      requires Valid() && (c.Scan? ==> SeenFit(Infos(), c.seen)) && Recorded(rows)
      modifies this`hits, this`heap, table, areas, Buffers()
      ensures Valid() && Buffers() == old(Buffers())
      ensures States() == Perform(Infos(), old(States()), c)
      ensures Recorded(if c.Scan? then RoundRows(Infos(), old(States()), c.mode, c.seen, |areas|) else rows)
      ensures r == Record(m, garbage, MemAfter(rows, c, m), OutputOf(Infos(), old(States()), rows, c, m, garbage))
    {
      match c {
        case Write(address, value) =>
          var m' := WriteMemory(m, address, value);
          r := Record(m, garbage, m', Silent);
        case Restore =>
          if |rows| <= MAX_HITS { RestoredRows(m, table[..], rows); }
          var m' := RestoreMemory(m);
          r := Record(m, garbage, m', Silent);
        case Observe =>
          if |rows| <= MAX_HITS { ShownPrefix(m, table[..], rows, garbage, |rows|); }
          var values := ObserveMemory(m, garbage);
          r := Record(m, garbage, m, Values(values));
        case Scan(mode, seen) =>
          var listed := CheckForChanges(mode, seen);
          r := Record(m, garbage, m, Listed(listed));
      }
    }

    /** One turn of the command loop. */
    method Turn(cmds: seq<Command>, m: Mem, garbage: Word, rs: seq<Record>, ghost sts: seq<AreaState>)
      returns (r: Record)
      requires Valid() && AllFit(Infos(), sts) && CommandsFit(Infos(), cmds) && |rs| < |cmds|
      requires States() == Session(Infos(), sts, cmds[..|rs|])
      requires Recorded(LastRows(Infos(), sts, cmds[..|rs|])) && Recording(Infos(), sts, cmds, rs)
      modifies this`hits, this`heap, table, areas, Buffers()
      ensures Valid() && Buffers() == old(Buffers()) && r.before == m && r.garbage == garbage
      ensures States() == Session(Infos(), sts, cmds[..|rs| + 1])
      ensures Recorded(LastRows(Infos(), sts, cmds[..|rs| + 1])) && Recording(Infos(), sts, cmds, rs + [r])
    {
      CommandsOneMore(Infos(), sts, cmds, |rs|);
      r := Execute(cmds[|rs|], m, garbage, LastRows(Infos(), sts, cmds[..|rs|]));
      RecordOneMore(Infos(), sts, cmds, rs, r);
    }

    /** The commands one after the other, up to quit. */
    method CommandLoop(cmds: seq<Command>, mems: seq<Mem>, garbage: seq<Word>, ghost sts: seq<AreaState>)
      returns (rs: seq<Record>)
      requires Valid() && AllFit(Infos(), sts) && CommandsFit(Infos(), cmds) && |mems| == |garbage| == |cmds|
      requires States() == sts && Recorded([])
      modifies this`hits, this`heap, table, areas, Buffers()
      ensures Valid() && States() == Session(Infos(), sts, cmds) && Recorded(LastRows(Infos(), sts, cmds))
      ensures Recording(Infos(), sts, cmds, rs) && GivenTo(rs, mems, garbage)
    {
      rs := [];
      assert cmds[..0] == [];
      for c := 0 to |cmds|
        invariant Valid() && Buffers() == old(Buffers()) && |rs| == c
        invariant States() == Session(Infos(), sts, cmds[..c])
        invariant Recorded(LastRows(Infos(), sts, cmds[..c])) && Recording(Infos(), sts, cmds, rs)
        invariant GivenTo(rs, mems[..c], garbage[..c])
      {
        var r := Turn(cmds, mems[c], garbage[c], rs, sts);
        GivenOneMore(rs, r, mems, garbage);
        rs := rs + [r];
      }
      assert cmds[..|cmds|] == cmds && mems[..|mems|] == mems && garbage[..|garbage|] == garbage;
    }

    /** The areas are read, then commands follow.  mems[c] is the tracee's memory
        when command c is given, garbage[c] what observing finds in its variable. */
    method RunMemChecking(first: seq<Read>, cmds: seq<Command>, mems: seq<Mem>, garbage: seq<Word>)
      returns (rs: seq<Record>)
      requires forall j, k | 0 <= j < k < |areas| :: areas[j] != areas[k]
      requires table.Length == MAX_HITS && hits == 0 && |mems| == |garbage| == |cmds|
      requires SeenFit(Infos(), first) && CommandsFit(Infos(), cmds)
      modifies this`hits, this`heap, table, areas
      ensures Valid() && States() == Session(Infos(), InitialStates(Infos(), first), cmds)
      ensures Recorded(LastRows(Infos(), InitialStates(Infos(), first), cmds))
      ensures Recording(Infos(), InitialStates(Infos(), first), cmds, rs) && GivenTo(rs, mems, garbage)
      ensures AllPromised(Infos(), InitialStates(Infos(), first), cmds, rs)
    {
      InitialMemoryRead(first);
      assert table[..][..0] == [];
      rs := CommandLoop(cmds, mems, garbage, InitialStates(Infos(), first));
      RecordsPromised(Infos(), InitialStates(Infos(), first), cmds, rs);
    }
  }

  type Pair = (array<Word>, array<bool>)

  /** Snapshot and bitmap of an area: allocated still if so before and kept. */
  ghost predicate Spared(p: Pair, heap0: set<object>, heap1: set<object>, kept: bool) {
    (p.0 in heap1 <==> p.0 in heap0 && kept) && (p.1 in heap1 <==> p.1 in heap0 && kept)
  }

  /** Of the first n areas those that are released lose their buffers. */
  ghost predicate FreedFirst(ps: seq<Pair>, before: seq<AreaState>, n: nat, heap0: set<object>, heap1: set<object>) {
    && |ps| == |before|
    && forall k | 0 <= k < |ps| :: Spared(ps[k], heap0, heap1, k >= n || Release(before[k]) == before[k])
  }

  /** Freed are both buffers of each area that was read and then given up. */
  ghost predicate FreedByRound(ps: seq<Pair>, sts: seq<AreaState>, seen: seq<Read>, after: seq<AreaState>,
                               heap0: set<object>, heap1: set<object>)
  {
    |ps| == |sts| == |seen| == |after| &&
    forall k | 0 <= k < |ps| ::
      Spared(ps[k], heap0, heap1, !(seen[k].Some? && sts[k].Watched? && after[k].Gone?))
  }

  lemma RoundFrees(ps: seq<Pair>, infos: seq<Info>, sts: seq<AreaState>, mode: Mode, seen: seq<Read>,
                   heap0: set<object>, heap1: set<object>)
    requires AllFit(infos, sts) && SeenFit(infos, seen)
    requires FreedFirst(ps, FilterFirst(infos, sts, mode, seen, |infos|), |infos|, heap0, heap1)
    ensures FreedByRound(ps, sts, seen, ScanAll(infos, sts, mode, seen), heap0, heap1)
  {
    var filtered, after := FilterFirst(infos, sts, mode, seen, |infos|), ScanAll(infos, sts, mode, seen);
    forall k | 0 <= k < |ps|
      ensures Spared(ps[k], heap0, heap1, !(seen[k].Some? && sts[k].Watched? && after[k].Gone?))
    {
      assert Spared(ps[k], heap0, heap1, Release(filtered[k]) == filtered[k]);
      assert after[k] == Release(filtered[k]) && filtered[k] == Filter(sts[k], mode, seen[k]);
    }
  }

  ghost predicate NoneShared(ps: seq<Pair>) {
    forall j, k | 0 <= j < k < |ps| :: ps[j].0 != ps[k].0 && ps[j].1 != ps[k].1
  }

  lemma FreedOneMore(ps: seq<Pair>, before: seq<AreaState>, n: nat, heap0: set<object>, heap1: set<object>,
                     heap2: set<object>)
    requires NoneShared(ps) && n < |ps| && FreedFirst(ps, before, n, heap0, heap1)
    requires heap2 == heap1 - if Release(before[n]) != before[n] then {ps[n].0, ps[n].1} else {}
    ensures FreedFirst(ps, before, n + 1, heap0, heap2)
  {
    forall k | 0 <= k < |ps|
      ensures Spared(ps[k], heap0, heap2, k >= n + 1 || Release(before[k]) == before[k])
    {
      assert Spared(ps[k], heap0, heap1, k >= n || Release(before[k]) == before[k]);
    }
  }

  lemma {:induction false} NoRows(info: Info, st: AreaState, mode: Mode, read: Read, n: nat)
    requires Fits(st, info.words) && read.None? && n <= info.words
    ensures AreaRows(info, st, mode, read, n) == []
  {
    if n > 0 && st.Watched? { NoRows(info, st, mode, read, n - 1); }
  }

  /** The buffers when the first n words have been filtered. */
  ghost predicate Halfway(st: AreaState, mode: Mode, read: Read, n: nat, mem: seq<Word>, cmp: seq<bool>)
    requires Matching(st, read) && st.Watched? && read.Some?
  {
    && |mem| == |cmp| == |st.out|
    && (forall i | 0 <= i < |cmp| ::
          && cmp[i] == (if i < n then !Survivor(st, mode, read, i) else st.out[i])
          && mem[i] == if i < n && Survivor(st, mode, read, i) then read.value[i] else st.snap[i])
  }

  lemma NextWord(st: AreaState, mode: Mode, read: Read, n: nat, mem: seq<Word>, cmp: seq<bool>)
    requires Matching(st, read) && st.Watched? && read.Some? && n < |st.out|
    requires Halfway(st, mode, read, n, mem, cmp)
    ensures cmp[n] == st.out[n] && mem[n] == st.snap[n]
    ensures var kept := Survivor(st, mode, read, n);
            Halfway(st, mode, read, n + 1, mem[n := if kept then read.value[n] else st.snap[n]], cmp[n := !kept])
  {
  }

  lemma FilterIs(st: AreaState, mode: Mode, read: Read, mem: seq<Word>, cmp: seq<bool>)
    requires Matching(st, read) && st.Watched? && read.Some? && Halfway(st, mode, read, |st.out|, mem, cmp)
    ensures Filter(st, mode, read) == Watched(mem, cmp)
  {
    var f := Filter(st, mode, read);
    assert f.snap == mem && f.out == cmp;
  }

  lemma NextRow(rows0: seq<Hit>, info: Info, st: AreaState, mode: Mode, read: Read, i: nat)
    requires Fits(st, info.words) && ReadFits(read, info.words) && i < info.words && st.Watched? && read.Some?
    ensures var rows := rows0 + AreaRows(info, st, mode, read, i);
            rows0 + AreaRows(info, st, mode, read, i + 1) ==
            if Survivor(st, mode, read, i) then rows + [HitOf(info, st, read, i)] else rows
  {
    var before := AreaRows(info, st, mode, read, i);
    assert rows0 + (before + [HitOf(info, st, read, i)]) == rows0 + before + [HitOf(info, st, read, i)];
  }

  lemma TableStarts(table: seq<Hit>, rows: seq<Hit>)
    requires TableOf(table, rows)
    ensures |rows| < MAX_HITS ==> table[..|rows|] == rows
  {
  }

  lemma TableGrows(table: seq<Hit>, rows: seq<Hit>, hit: Hit)
    requires TableOf(table, rows)
    ensures TableOf(if |rows| < MAX_HITS then table[|rows| := hit] else table, rows + [hit])
  {
    if |rows| < MAX_HITS {
      assert table[|rows| := hit][..|rows| + 1] == table[..|rows|] + [hit];
    } else {
      assert (rows + [hit])[..MAX_HITS] == rows[..MAX_HITS];
    }
  }
}
