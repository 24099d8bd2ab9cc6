/** Writing the last round's old values back, and what later rounds make of it. */
module ScanRestore {
  import opened Memory
  import opened ScanModel

  /** Each row's old value written to its address, first row first. */
  function RestoreRows(m: Mem, rows: seq<Hit>): (m': Mem)
    ensures m'.Keys == m.Keys
  {
    if rows == [] then m
    else
      var last := rows[|rows| - 1];
      WriteWord(RestoreRows(m, rows[..|rows| - 1]), last.addr, last.orig)
  }

  /** The restore command: only a round that fits the table is undone. */
  function Restored(m: Mem, hits: nat, table: seq<Hit>): (m': Mem)
    requires |table| == MAX_HITS
    ensures m'.Keys == m.Keys
  {
    if hits > MAX_HITS then m else RestoreRows(m, table[..hits])
  }

  ghost predicate Covers(rows: seq<Hit>, j: int, k: int) {
    0 <= j < |rows| && rows[j].addr <= k < rows[j].addr + 8
  }

  lemma {:induction false} ByteOutsideRows(m: Mem, rows: seq<Hit>, k: int)
    requires k in m && forall j :: !Covers(rows, j, k)
    ensures RestoreRows(m, rows)[k] == m[k]
  {
    if rows != [] {
      var n := |rows| - 1;
      forall j ensures !Covers(rows[..n], j, k) { assert !Covers(rows, j, k); }
      ByteOutsideRows(m, rows[..n], k);
      assert !Covers(rows, n, k);
    }
  }

  lemma {:induction false} ByteInRow(m: Mem, rows: seq<Hit>, j: int, k: int)
    requires Spaced(rows) && k in m && Covers(rows, j, k)
    ensures RestoreRows(m, rows)[k] == if Mapped(m, rows[j].addr) then rows[j].orig[k - rows[j].addr] else m[k]
  {
    var n := |rows| - 1;
    if j < n {
      ByteInRow(m, rows[..n], j, k);
      assert Apart(rows[j].addr, rows[n].addr);
    } else {
      forall i ensures !Covers(rows[..n], i, k) {
        if 0 <= i < n { assert Apart(rows[i].addr, rows[n].addr); }
      }
      ByteOutsideRows(m, rows[..n], k);
    }
  }

  lemma RowRestored(m: Mem, rows: seq<Hit>, j: int)
    requires Spaced(rows) && 0 <= j < |rows| && Mapped(m, rows[j].addr)
    ensures ReadWord(RestoreRows(m, rows), rows[j].addr) == rows[j].orig
  {
    var m', a := RestoreRows(m, rows), rows[j].addr;
    forall k | a <= k < a + 8 ensures ByteIs(m', a, rows[j].orig, k) {
      ByteInRow(m, rows, j, k);
    }
    ReadIs(m', a, rows[j].orig);
  }

  /** The rows' old values are back, as far as mapped. */
  ghost predicate OldBack(m: Mem, m': Mem, rows: seq<Hit>) {
    forall h | h in rows && Mapped(m, h.addr) :: ReadWord(m', h.addr) == h.orig
  }

  lemma RestoreBringsBack(m: Mem, rows: seq<Hit>)
    requires Spaced(rows)
    ensures OldBack(m, RestoreRows(m, rows), rows)
  {
    forall h | h in rows && Mapped(m, h.addr) ensures ReadWord(RestoreRows(m, rows), h.addr) == h.orig {
      var j :| 0 <= j < |rows| && rows[j] == h;
      RowRestored(m, rows, j);
    }
  }

  lemma RestoreTwice(m: Mem, rows: seq<Hit>)
    requires Spaced(rows)
    ensures RestoreRows(RestoreRows(m, rows), rows) == RestoreRows(m, rows)
  {
    var m' := RestoreRows(m, rows);
    forall k | k in m ensures RestoreRows(m', rows)[k] == m'[k] {
      if j :| Covers(rows, j, k) {
        ByteInRow(m, rows, j, k);
        ByteInRow(m', rows, j, k);
      } else {
        ByteOutsideRows(m', rows, k);
      }
    }
  }

  /** The table a round leaves behind. */
  ghost predicate TableOf(table: seq<Hit>, rows: seq<Hit>) {
    && |table| == MAX_HITS
    && table[..if |rows| < MAX_HITS then |rows| else MAX_HITS] ==
       rows[..if |rows| < MAX_HITS then |rows| else MAX_HITS]
  }

  /** Byte b belongs to live word i of area k. */
  predicate InWord(infos: seq<Info>, sts: seq<AreaState>, k: int, i: int, b: int)
    requires AllFit(infos, sts)
  {
    0 <= k < |infos| && Live(sts[k], i) && WordAt(infos[k], i) <= b < WordAt(infos[k], i) + 8
  }

  ghost predicate InLiveWord(infos: seq<Info>, sts: seq<AreaState>, b: int)
    requires AllFit(infos, sts)
  {
    exists k, i :: InWord(infos, sts, k, i, b)
  }

  lemma RestoredRows(m: Mem, table: seq<Hit>, rows: seq<Hit>)
    requires TableOf(table, rows) && |rows| <= MAX_HITS
    ensures Restored(m, |rows|, table) == RestoreRows(m, rows)
  {
    assert table[..|rows|] == rows;
  }

  /** h is the row of word i of area k, which survives. */
  predicate IsHit(infos: seq<Info>, sts: seq<AreaState>, mode: Mode, seen: seq<Read>, k: int, i: int, h: Hit)
    requires AllFit(infos, sts) && SeenFit(infos, seen)
  {
    0 <= k < |infos| && Survivor(sts[k], mode, seen[k], i) && h == HitOf(infos[k], sts[k], seen[k], i)
  }

  /** Every survivor has its row. */
  ghost predicate Lists(rows: seq<Hit>, infos: seq<Info>, sts: seq<AreaState>, mode: Mode, seen: seq<Read>)
    requires AllFit(infos, sts) && SeenFit(infos, seen)
  {
    forall k, i, h | IsHit(infos, sts, mode, seen, k, i, h) :: h in rows
  }

  lemma RoundRowsList(infos: seq<Info>, sts: seq<AreaState>, mode: Mode, seen: seq<Read>)
    requires AllFit(infos, sts) && SeenFit(infos, seen)
    ensures Lists(RoundRows(infos, sts, mode, seen, |infos|), infos, sts, mode, seen)
  {
    var rows := RoundRows(infos, sts, mode, seen, |infos|);
    forall k, i, h | IsHit(infos, sts, mode, seen, k, i, h) ensures h in rows {
      SurvivorRow(infos, sts, mode, seen, k, i);
    }
  }

  lemma LiveWordRestored(infos: seq<Info>, sts: seq<AreaState>, mode: Mode, seen: seq<Read>, rows: seq<Hit>,
                         m: Mem, m': Mem, k: int, i: int)
    requires AllFit(infos, sts) && SeenFit(infos, seen) && Lists(rows, infos, sts, mode, seen)
    requires OldBack(m, m', rows) && 0 <= k < |infos| && Survivor(sts[k], mode, seen[k], i)
    requires Mapped(m, WordAt(infos[k], i))
    ensures ReadWord(m', WordAt(infos[k], i)) == sts[k].snap[i]
  {
    var h := HitOf(infos[k], sts[k], seen[k], i);
    assert IsHit(infos, sts, mode, seen, k, i, h);
    assert h in rows;
  }

  lemma RowByteIsLive(infos: seq<Info>, sts: seq<AreaState>, mode: Mode, seen: seq<Read>, j: int, b: int)
    requires AllFit(infos, sts) && SeenFit(infos, seen)
    requires Covers(RoundRows(infos, sts, mode, seen, |infos|), j, b)
    ensures InLiveWord(infos, ScanAll(infos, sts, mode, seen), b)
  {
    var k, i := RowOrigin(infos, sts, mode, seen, |infos|, j);
    SurvivorIsLive(sts[k], mode, seen[k], i);
    assert InWord(infos, ScanAll(infos, sts, mode, seen), k, i, b);
  }

  lemma DeadByteKept(infos: seq<Info>, sts: seq<AreaState>, mode: Mode, seen: seq<Read>, m: Mem, b: int)
    requires AllFit(infos, sts) && SeenFit(infos, seen)
    requires b in m && !InLiveWord(infos, ScanAll(infos, sts, mode, seen), b)
    ensures RestoreRows(m, RoundRows(infos, sts, mode, seen, |infos|))[b] == m[b]
  {
    var rows := RoundRows(infos, sts, mode, seen, |infos|);
    forall j ensures !Covers(rows, j, b) {
      if Covers(rows, j, b) { RowByteIsLive(infos, sts, mode, seen, j, b); }
    }
    ByteOutsideRows(m, rows, b);
  }

  lemma RowsUndoRound(infos: seq<Info>, sts: seq<AreaState>, mode: Mode, seen: seq<Read>, m: Mem)
    requires AllFit(infos, sts) && SeenFit(infos, seen) && Disjoint(infos)
    ensures var kept := ScanAll(infos, sts, mode, seen);
            var m' := RestoreRows(m, RoundRows(infos, sts, mode, seen, |infos|));
            && (forall k, i | 0 <= k < |infos| && Live(kept[k], i) && Mapped(m, WordAt(infos[k], i)) ::
                  ReadWord(m', WordAt(infos[k], i)) == sts[k].snap[i])
            && (forall b | b in m && !InLiveWord(infos, kept, b) :: m'[b] == m[b])
  {
    var rows := RoundRows(infos, sts, mode, seen, |infos|);
    var kept, m' := ScanAll(infos, sts, mode, seen), RestoreRows(m, rows);
    RowsSpaced(infos, sts, mode, seen);
    RestoreBringsBack(m, rows);
    RoundRowsList(infos, sts, mode, seen);
    forall k, i | 0 <= k < |infos| && Live(kept[k], i) && Mapped(m, WordAt(infos[k], i))
      ensures ReadWord(m', WordAt(infos[k], i)) == sts[k].snap[i]
    {
      SurvivorIsLive(sts[k], mode, seen[k], i);
      LiveWordRestored(infos, sts, mode, seen, rows, m, m', k, i);
    }
    forall b | b in m && !InLiveWord(infos, kept, b) ensures m'[b] == m[b] {
      DeadByteKept(infos, sts, mode, seen, m, b);
    }
  }

  /** Up to and including 300 hits, restoring puts every live word back to its
      previous snapshot whatever the tracee did meanwhile, touches no other
      byte, and is idempotent; with more hits it does nothing. */
  lemma RestoreUndoesRound(infos: seq<Info>, sts: seq<AreaState>, mode: Mode, seen: seq<Read>, table: seq<Hit>, m: Mem)
    requires AllFit(infos, sts) && SeenFit(infos, seen) && Disjoint(infos)
    requires TableOf(table, RoundRows(infos, sts, mode, seen, |infos|))
    ensures var hits := |RoundRows(infos, sts, mode, seen, |infos|)|;
            var kept := ScanAll(infos, sts, mode, seen);
            var m' := Restored(m, hits, table);
            && (hits > MAX_HITS ==> m' == m)
            && (hits <= MAX_HITS ==>
                  forall k, i | 0 <= k < |infos| && Live(kept[k], i) && Mapped(m, WordAt(infos[k], i)) ::
                    ReadWord(m', WordAt(infos[k], i)) == sts[k].snap[i])
            && (forall b | b in m && !InLiveWord(infos, kept, b) :: m'[b] == m[b])
            && Restored(m', hits, table) == m'
  {
    var rows := RoundRows(infos, sts, mode, seen, |infos|);
    if |rows| <= MAX_HITS {
      RestoredRows(m, table, rows);
      RestoredRows(RestoreRows(m, rows), table, rows);
      RowsSpaced(infos, sts, mode, seen);
      RestoreTwice(m, rows);
      RowsUndoRound(infos, sts, mode, seen, m);
    }
  }

  lemma SurvivorIsLive(st: AreaState, mode: Mode, read: Read, i: int)
    requires Matching(st, read)
    ensures Live(ScanArea(st, mode, read), i) <==> Survivor(st, mode, read, i)
  {
    var f := Filter(st, mode, read);
    assert Live(f, i) <==> Survivor(st, mode, read, i);
  }

  // ---- restoring, then scanning again ----

  /** What reading a whole area from memory gives. */
  function ReadArea(m: Mem, info: Info): (r: Read)
    ensures ReadFits(r, info.words)
  {
    if forall i | 0 <= i < info.words :: Mapped(m, WordAt(info, i)) then
      Some(seq(info.words, i requires 0 <= i < info.words => ReadWord(m, WordAt(info, i))))
    else None
  }

  function ReadAll(m: Mem, infos: seq<Info>): (seen: seq<Read>)
    ensures SeenFit(infos, seen)
  {
    seq(|infos|, k requires 0 <= k < |infos| => ReadArea(m, infos[k]))
  }

  function Swapped(rows: seq<Hit>): seq<Hit> {
    seq(|rows|, j requires 0 <= j < |rows| => rows[j].(orig := rows[j].modd, modd := rows[j].orig))
  }

  /** Area k is re-read and shows, at each word the round kept, the value that
      word had before the round. */
  ghost predicate ShowsOld(st: AreaState, mode: Mode, read: Read, again: Read)
    requires Matching(st, read) && Matching(st, again)
  {
    ScanArea(st, mode, read).Watched? ==>
      again.Some? && forall i | Survivor(st, mode, read, i) :: again.value[i] == st.snap[i]
  }

  /** A second round kept the words the first had kept, and they are back to
      what they were before it. */
  ghost predicate KeptAgain(st: AreaState, st1: AreaState, st2: AreaState)
  {
    && (st2.Watched? <==> st1.Watched?)
    && (forall i :: Live(st2, i) <==> Live(st1, i))
    && (forall i | Live(st2, i) ::
          st.Watched? && i < |st.snap| && i < |st2.snap| && st2.snap[i] == st.snap[i])
  }

  /** Both predicates are symmetric, so a restored word passes the same round
      again and fails the opposite one. */
  lemma RescanArea(st: AreaState, mode: Mode, read: Read, mode': Mode, again: Read)
    requires Matching(st, read) && Matching(st, again) && ShowsOld(st, mode, read, again)
    ensures var st1 := ScanArea(st, mode, read);
            var st2 := ScanArea(st1, mode', again);
            if mode' == mode then KeptAgain(st, st1, st2) else st2.Gone?
  {
    var st1 := ScanArea(st, mode, read);
    if st1.Watched? {
      assert st1 == Filter(st, mode, read);
      var f := Filter(st1, mode', again);
      forall i ensures Live(f, i) <==> mode' == mode && Live(st1, i) {
        assert Live(st1, i) <==> Survivor(st, mode, read, i);
        assert Live(f, i) <==> Survivor(st1, mode', again, i);
        if Live(st1, i) {
          assert st1.snap[i] == read.value[i] && again.value[i] == st.snap[i];
        }
      }
      if mode' == mode {
        var i :| 0 <= i < |st1.out| && !st1.out[i];
        assert Live(st1, i) && Live(f, i);
      } else if f.Watched? {
        forall i | 0 <= i < |f.out| ensures f.out[i] { assert !Live(f, i); }
      }
    }
  }

  lemma {:induction false} RescanAreaRows(info: Info, st: AreaState, mode: Mode, read: Read, again: Read, n: nat)
    requires Fits(st, info.words) && ReadFits(read, info.words) && ReadFits(again, info.words) && n <= info.words
    requires ShowsOld(st, mode, read, again) && ScanArea(st, mode, read).Watched?
    ensures AreaRows(info, ScanArea(st, mode, read), mode, again, n) == Swapped(AreaRows(info, st, mode, read, n))
  {
    if n > 0 {
      RescanAreaRows(info, st, mode, read, again, n - 1);
      SurvivesAgain(info, st, mode, read, again, n - 1);
      if Survivor(st, mode, read, n - 1) {
        SwappedConcat(AreaRows(info, st, mode, read, n - 1), [HitOf(info, st, read, n - 1)]);
      }
    }
  }

  lemma SurvivesAgain(info: Info, st: AreaState, mode: Mode, read: Read, again: Read, i: nat)
    requires Fits(st, info.words) && ReadFits(read, info.words) && ReadFits(again, info.words) && i < info.words
    requires ShowsOld(st, mode, read, again) && ScanArea(st, mode, read).Watched?
    ensures Survivor(ScanArea(st, mode, read), mode, again, i) <==> Survivor(st, mode, read, i)
    ensures Survivor(st, mode, read, i) ==>
      Swapped([HitOf(info, st, read, i)]) == [HitOf(info, ScanArea(st, mode, read), again, i)]
  {
    SurvivorIsLive(st, mode, read, i);
    if Survivor(st, mode, read, i) {
      assert ScanArea(st, mode, read).snap[i] == read.value[i];
    }
  }

  /** The rows of an area are exchanged, also when the round gave it up. */
  lemma RescanOneArea(info: Info, st: AreaState, mode: Mode, read: Read, again: Read)
    requires Fits(st, info.words) && ReadFits(read, info.words) && ReadFits(again, info.words)
    requires ShowsOld(st, mode, read, again)
    ensures AreaRows(info, ScanArea(st, mode, read), mode, again, info.words) ==
            Swapped(AreaRows(info, st, mode, read, info.words))
  {
    if ScanArea(st, mode, read).Watched? {
      RescanAreaRows(info, st, mode, read, again, info.words);
    } else {
      var f := Filter(st, mode, read);
      RowsCountFiltered(info, st, mode, read, info.words);
      if f.Watched? { NoneLive(f, |f.out|); }
    }
  }

  lemma {:induction false} RescanRows(infos: seq<Info>, sts: seq<AreaState>, mode: Mode, seen: seq<Read>,
                                      again: seq<Read>, k: nat)
    requires AllFit(infos, sts) && SeenFit(infos, seen) && SeenFit(infos, again) && k <= |infos|
    requires forall a | 0 <= a < |infos| :: ShowsOld(sts[a], mode, seen[a], again[a])
    ensures RoundRows(infos, ScanAll(infos, sts, mode, seen), mode, again, k) ==
            Swapped(RoundRows(infos, sts, mode, seen, k))
  {
    if k > 0 {
      RescanRows(infos, sts, mode, seen, again, k - 1);
      RescanOneArea(infos[k - 1], sts[k - 1], mode, seen[k - 1], again[k - 1]);
      SwappedConcat(RoundRows(infos, sts, mode, seen, k - 1),
                    AreaRows(infos[k - 1], sts[k - 1], mode, seen[k - 1], infos[k - 1].words));
    }
  }

  lemma SwappedConcat(a: seq<Hit>, b: seq<Hit>)
    ensures Swapped(a + b) == Swapped(a) + Swapped(b)
  {
  }

  lemma ReadAreaWord(m: Mem, info: Info, i: int)
    requires ReadArea(m, info).Some? && 0 <= i < info.words
    ensures Mapped(m, WordAt(info, i)) && ReadArea(m, info).value[i] == ReadWord(m, WordAt(info, i))
  {
  }

  lemma ReadAreaAgain(m: Mem, m': Mem, info: Info)
    requires ReadArea(m, info).Some? && m'.Keys == m.Keys
    ensures ReadArea(m', info).Some?
  {
    forall i | 0 <= i < info.words ensures Mapped(m', WordAt(info, i)) { ReadAreaWord(m, info, i); }
  }

  lemma AreaShowsWord(m: Mem, m': Mem, info: Info, i: int, w: Word)
    requires ReadArea(m, info).Some? && m'.Keys == m.Keys && 0 <= i < info.words
    requires Mapped(m, WordAt(info, i)) ==> ReadWord(m', WordAt(info, i)) == w
    ensures ReadArea(m', info).Some? && ReadArea(m', info).value[i] == w
  {
    ReadAreaWord(m, info, i);
    ReadAreaAgain(m, m', info);
    ReadAreaWord(m', info, i);
  }

  lemma RestoreShowsOldWord(infos: seq<Info>, sts: seq<AreaState>, mode: Mode, seen: seq<Read>, rows: seq<Hit>,
                            m: Mem, m': Mem, k: int, i: int)
    requires AllFit(infos, sts) && SeenFit(infos, seen) && Lists(rows, infos, sts, mode, seen)
    requires OldBack(m, m', rows) && m'.Keys == m.Keys && 0 <= k < |infos|
    requires ReadArea(m, infos[k]).Some? && Survivor(sts[k], mode, seen[k], i)
    ensures ReadArea(m', infos[k]).Some? && ReadArea(m', infos[k]).value[i] == sts[k].snap[i]
  {
    ReadAreaWord(m, infos[k], i);
    LiveWordRestored(infos, sts, mode, seen, rows, m, m', k, i);
    AreaShowsWord(m, m', infos[k], i, sts[k].snap[i]);
  }

  lemma ShowsOldIf(st: AreaState, mode: Mode, read: Read, again: Read)
    requires Matching(st, read) && Matching(st, again)
    requires ScanArea(st, mode, read).Watched? ==> again.Some?
    requires again.Some? ==> forall i | Survivor(st, mode, read, i) :: again.value[i] == st.snap[i]
    ensures ShowsOld(st, mode, read, again)
  {
  }

  lemma RestoreShowsOld(infos: seq<Info>, sts: seq<AreaState>, mode: Mode, seen: seq<Read>, rows: seq<Hit>,
                        m: Mem, m': Mem, k: int)
    requires AllFit(infos, sts) && SeenFit(infos, seen) && Lists(rows, infos, sts, mode, seen)
    requires OldBack(m, m', rows) && m'.Keys == m.Keys && 0 <= k < |infos|
    requires ScanArea(sts[k], mode, seen[k]).Watched? ==> ReadArea(m, infos[k]).Some?
    ensures ShowsOld(sts[k], mode, seen[k], ReadArea(m', infos[k]))
  {
    var st, read, again := sts[k], seen[k], ReadArea(m', infos[k]);
    if ReadArea(m, infos[k]).Some? {
      ReadAreaAgain(m, m', infos[k]);
      forall i | Survivor(st, mode, read, i) ensures again.value[i] == st.snap[i] {
        RestoreShowsOldWord(infos, sts, mode, seen, rows, m, m', k, i);
      }
      ShowsOldIf(st, mode, read, again);
    }
  }

  /** Scan, restore, scan again with the tracee idle in between: the same round
      keeps exactly the same words, with old and new values exchanged; the
      opposite round gives every area up.  Between the first scan and the
      restore the tracee may write anything (m is arbitrary). */
  lemma RestoreThenScan(infos: seq<Info>, sts: seq<AreaState>, mode: Mode, seen: seq<Read>, table: seq<Hit>,
                        m: Mem, mode': Mode)
    requires AllFit(infos, sts) && SeenFit(infos, seen) && Disjoint(infos)
    requires TableOf(table, RoundRows(infos, sts, mode, seen, |infos|))
    requires |RoundRows(infos, sts, mode, seen, |infos|)| <= MAX_HITS
    requires forall k | 0 <= k < |infos| :: ScanAll(infos, sts, mode, seen)[k].Watched? ==> ReadArea(m, infos[k]).Some?
    ensures var rows := RoundRows(infos, sts, mode, seen, |infos|);
            var sts1 := ScanAll(infos, sts, mode, seen);
            var again := ReadAll(Restored(m, |rows|, table), infos);
            var sts2 := ScanAll(infos, sts1, mode', again);
            if mode' == mode then
              && RoundRows(infos, sts1, mode', again, |infos|) == Swapped(rows)
              && forall k | 0 <= k < |infos| :: KeptAgain(sts[k], sts1[k], sts2[k])
            else forall k | 0 <= k < |infos| :: sts2[k].Gone?
  {
    var rows := RoundRows(infos, sts, mode, seen, |infos|);
    var m' := RestoreRows(m, rows);
    RestoredRows(m, table, rows);
    RowsSpaced(infos, sts, mode, seen);
    RestoreBringsBack(m, rows);
    RoundRowsList(infos, sts, mode, seen);
    forall k | 0 <= k < |infos| ensures ShowsOld(sts[k], mode, seen[k], ReadAll(m', infos)[k]) {
      RestoreShowsOld(infos, sts, mode, seen, rows, m, m', k);
    }
    Rescan(infos, sts, mode, seen, mode', ReadAll(m', infos));
  }

  lemma Rescan(infos: seq<Info>, sts: seq<AreaState>, mode: Mode, seen: seq<Read>, mode': Mode, again: seq<Read>)
    requires AllFit(infos, sts) && SeenFit(infos, seen) && SeenFit(infos, again)
    requires forall k | 0 <= k < |infos| :: ShowsOld(sts[k], mode, seen[k], again[k])
    ensures var sts1 := ScanAll(infos, sts, mode, seen);
            var sts2 := ScanAll(infos, sts1, mode', again);
            if mode' == mode then
              && RoundRows(infos, sts1, mode', again, |infos|) == Swapped(RoundRows(infos, sts, mode, seen, |infos|))
              && forall k | 0 <= k < |infos| :: KeptAgain(sts[k], sts1[k], sts2[k])
            else forall k | 0 <= k < |infos| :: sts2[k].Gone?
  {
    forall k | 0 <= k < |infos| {
      RescanArea(sts[k], mode, seen[k], mode', again[k]);
    }
    if mode' == mode { RescanRows(infos, sts, mode, seen, again, |infos|); }
  }
}
