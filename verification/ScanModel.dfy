/** What one round of the memory scanner does to the observed areas, and the
    list of hits it produces.  An area is described pointwise here; Scanner.dfy
    holds the loops that update the buffers in place. */
module ScanModel {
  import opened Memory

  datatype Mode = Changed | Unchanged

  /** The fixed part of an observed area. */
  datatype Info = Info(start: int, words: nat, name: string)

  /** The part that rounds change: the snapshot and which words are out. */
  datatype AreaState = Gone | Watched(snap: seq<Word>, out: seq<bool>)

  /** A row of the hit table. */
  datatype Hit = Hit(addr: int, orig: Word, modd: Word, name: string)

  /** What reading an area gave: nothing when the read failed. */
  type Read = Option<seq<Word>>

  const MAX_HITS := 300

  predicate Keep(mode: Mode, before: Word, after: Word) {
    match mode
    case Changed => before != after
    case Unchanged => before == after
  }

  predicate Fits(st: AreaState, words: nat) {
    st.Watched? ==> |st.snap| == words && |st.out| == words
  }

  predicate ReadFits(read: Read, words: nat) {
    read.Some? ==> |read.value| == words
  }

  predicate Live(st: AreaState, i: int) {
    st.Watched? && 0 <= i < |st.out| && !st.out[i]
  }

  /** Snapshot, bitmap and what was read have one length. */
  predicate Matching(st: AreaState, read: Read) {
    st.Watched? ==> Fits(st, |st.out|) && ReadFits(read, |st.out|)
  }

  predicate Survivor(st: AreaState, mode: Mode, read: Read, i: int)
    requires Matching(st, read)
  {
    Live(st, i) && read.Some? && Keep(mode, st.snap[i], read.value[i])
  }

  /** The words kept by a round; only those get a fresh snapshot. */
  function Filter(st: AreaState, mode: Mode, read: Read): (r: AreaState)
    requires Matching(st, read)
    ensures st.Watched? ==> Fits(r, |st.out|)
    ensures forall i :: Live(r, i) <==> Survivor(st, mode, read, i)
  {
    if st.Gone? || read.None? then Gone
    else
      var n := |st.out|;
      Watched(
        seq(n, i requires 0 <= i < n =>
               if Survivor(st, mode, read, i) then read.value[i] else st.snap[i]),
        seq(n, i requires 0 <= i < n => !Survivor(st, mode, read, i)))
  }

  predicate AllOut(out: seq<bool>) {
    forall i | 0 <= i < |out| :: out[i]
  }

  /** An area without live words is given up. */
  function Release(st: AreaState): AreaState {
    if st.Watched? && AllOut(st.out) then Gone else st
  }

  function ScanArea(st: AreaState, mode: Mode, read: Read): (r: AreaState)
    requires Matching(st, read)
    ensures st.Watched? ==> Fits(r, |st.out|)
  {
    Release(Filter(st, mode, read))
  }

  /** The address of word i. */
  function WordAt(info: Info, i: int): int {
    info.start + 8 * i
  }

  function HitOf(info: Info, st: AreaState, read: Read, i: nat): Hit
    requires st.Watched? && read.Some? && i < |st.snap| && i < |read.value|
  {
    Hit(WordAt(info, i), st.snap[i], read.value[i], info.name)
  }

  /** The hits among the first n words of an area. */
  function AreaRows(info: Info, st: AreaState, mode: Mode, read: Read, n: nat): (rows: seq<Hit>)
    requires Fits(st, info.words) && ReadFits(read, info.words) && n <= info.words
    ensures |rows| <= n
  {
    if n == 0 || st.Gone? then []
    else
      var before := AreaRows(info, st, mode, read, n - 1);
      if Survivor(st, mode, read, n - 1) then before + [HitOf(info, st, read, n - 1)] else before
  }

  predicate AllFit(infos: seq<Info>, sts: seq<AreaState>) {
    |sts| == |infos| && forall k | 0 <= k < |infos| :: Fits(sts[k], infos[k].words)
  }

  predicate SeenFit(infos: seq<Info>, seen: seq<Read>) {
    |seen| == |infos| && forall k | 0 <= k < |infos| :: ReadFits(seen[k], infos[k].words)
  }

  /** The hits of the first k areas. */
  function RoundRows(infos: seq<Info>, sts: seq<AreaState>, mode: Mode, seen: seq<Read>, k: nat): seq<Hit>
    requires AllFit(infos, sts) && SeenFit(infos, seen) && k <= |infos|
  {
    if k == 0 then []
    else
      RoundRows(infos, sts, mode, seen, k - 1) +
      AreaRows(infos[k - 1], sts[k - 1], mode, seen[k - 1], infos[k - 1].words)
  }

  function ScanAll(infos: seq<Info>, sts: seq<AreaState>, mode: Mode, seen: seq<Read>): (r: seq<AreaState>)
    requires AllFit(infos, sts) && SeenFit(infos, seen)
    ensures AllFit(infos, r)
    ensures forall k | 0 <= k < |infos| :: r[k] == ScanArea(sts[k], mode, seen[k])
  {
    seq(|infos|, k requires 0 <= k < |infos| => ScanArea(sts[k], mode, seen[k]))
  }

  /** The areas when the first n have been filtered and none given up yet. */
  function FilterFirst(infos: seq<Info>, sts: seq<AreaState>, mode: Mode, seen: seq<Read>, n: nat): (r: seq<AreaState>)
    requires AllFit(infos, sts) && SeenFit(infos, seen)
  {
    seq(|infos|, k requires 0 <= k < |infos| => if k < n then Filter(sts[k], mode, seen[k]) else sts[k])
  }

  function ReleaseFirst(sts: seq<AreaState>, n: nat): seq<AreaState> {
    seq(|sts|, k requires 0 <= k < |sts| => if k < n then Release(sts[k]) else sts[k])
  }

  lemma FilterNone(infos: seq<Info>, sts: seq<AreaState>, mode: Mode, seen: seq<Read>)
    requires AllFit(infos, sts) && SeenFit(infos, seen)
    ensures FilterFirst(infos, sts, mode, seen, 0) == sts
  {
  }

  lemma FilterOneMore(infos: seq<Info>, sts: seq<AreaState>, mode: Mode, seen: seq<Read>, n: nat)
    requires AllFit(infos, sts) && SeenFit(infos, seen) && n < |infos|
    ensures FilterFirst(infos, sts, mode, seen, n)[n] == sts[n]
    ensures FilterFirst(infos, sts, mode, seen, n)[n := Filter(sts[n], mode, seen[n])] ==
            FilterFirst(infos, sts, mode, seen, n + 1)
  {
  }

  lemma RowsOneMore(infos: seq<Info>, sts: seq<AreaState>, mode: Mode, seen: seq<Read>, k: nat)
    requires AllFit(infos, sts) && SeenFit(infos, seen) && k < |infos|
    ensures RoundRows(infos, sts, mode, seen, k + 1) ==
            RoundRows(infos, sts, mode, seen, k) + AreaRows(infos[k], sts[k], mode, seen[k], infos[k].words)
  {
  }

  lemma ReleaseOneMore(sts: seq<AreaState>, n: nat)
    requires n < |sts|
    ensures ReleaseFirst(sts, n)[n] == sts[n]
    ensures ReleaseFirst(sts, n)[n := Release(sts[n])] == ReleaseFirst(sts, n + 1)
  {
  }

  /** Filtering all areas and only then giving areas up is a round. */
  lemma FilterThenRelease(infos: seq<Info>, sts: seq<AreaState>, mode: Mode, seen: seq<Read>)
    requires AllFit(infos, sts) && SeenFit(infos, seen)
    ensures ReleaseFirst(FilterFirst(infos, sts, mode, seen, |infos|), |infos|) == ScanAll(infos, sts, mode, seen)
  {
  }

  // ---- hits count the live words that are left ----

  function LiveIn(st: AreaState, n: nat): nat
    requires st.Watched? ==> n <= |st.out|
  {
    if n == 0 || st.Gone? then 0
    else LiveIn(st, n - 1) + if st.out[n - 1] then 0 else 1
  }

  function LiveTotal(sts: seq<AreaState>, k: nat): nat
    requires k <= |sts|
  {
    if k == 0 then 0
    else LiveTotal(sts, k - 1) + if sts[k - 1].Gone? then 0 else LiveIn(sts[k - 1], |sts[k - 1].out|)
  }

  lemma {:induction false} RowsCountFiltered(info: Info, st: AreaState, mode: Mode, read: Read, n: nat)
    requires Fits(st, info.words) && ReadFits(read, info.words) && n <= info.words
    ensures |AreaRows(info, st, mode, read, n)| == LiveIn(Filter(st, mode, read), n)
  {
    if n > 0 && st.Watched? {
      RowsCountFiltered(info, st, mode, read, n - 1);
      var f := Filter(st, mode, read);
      assert Live(f, n - 1) <==> Survivor(st, mode, read, n - 1);
    }
  }

  lemma {:induction false} NoneLive(st: AreaState, n: nat)
    requires st.Watched? && AllOut(st.out) && n <= |st.out|
    ensures LiveIn(st, n) == 0
  {
    if n > 0 { NoneLive(st, n - 1); }
  }

  /** A round's hit count is the number of live words of the areas still valid
      after it, although areas are given up only once all have been counted. */
  lemma {:induction false} HitsAreLiveWords(infos: seq<Info>, sts: seq<AreaState>, mode: Mode, seen: seq<Read>, k: nat)
    requires AllFit(infos, sts) && SeenFit(infos, seen) && k <= |infos|
    ensures |RoundRows(infos, sts, mode, seen, k)| == LiveTotal(ScanAll(infos, sts, mode, seen), k)
  {
    if k > 0 {
      HitsAreLiveWords(infos, sts, mode, seen, k - 1);
      var f := Filter(sts[k - 1], mode, seen[k - 1]);
      RowsCountFiltered(infos[k - 1], sts[k - 1], mode, seen[k - 1], infos[k - 1].words);
      if f.Watched? && AllOut(f.out) { NoneLive(f, |f.out|); }
    }
  }

  // ---- the rows are the survivors, in order ----

  /** How many hits precede word i of area k. */
  function Rank(infos: seq<Info>, sts: seq<AreaState>, mode: Mode, seen: seq<Read>, k: nat, i: nat): nat
    requires AllFit(infos, sts) && SeenFit(infos, seen) && k < |infos| && i <= infos[k].words
  {
    |RoundRows(infos, sts, mode, seen, k)| + |AreaRows(infos[k], sts[k], mode, seen[k], i)|
  }

  lemma {:induction false} AreaRowsPrefix(info: Info, st: AreaState, mode: Mode, read: Read, m: nat, n: nat)
    requires Fits(st, info.words) && ReadFits(read, info.words) && m <= n <= info.words
    ensures AreaRows(info, st, mode, read, m) <= AreaRows(info, st, mode, read, n)
  {
    if m < n && st.Watched? { AreaRowsPrefix(info, st, mode, read, m, n - 1); }
  }

  lemma {:induction false} RoundRowsPrefix(infos: seq<Info>, sts: seq<AreaState>, mode: Mode, seen: seq<Read>,
                                           j: nat, k: nat)
    requires AllFit(infos, sts) && SeenFit(infos, seen) && j <= k <= |infos|
    ensures RoundRows(infos, sts, mode, seen, j) <= RoundRows(infos, sts, mode, seen, k)
  {
    if j < k { RoundRowsPrefix(infos, sts, mode, seen, j, k - 1); }
  }

  /** Every survivor has a row, and its place is the number of survivors
      before it. */
  lemma {:induction false} SurvivorRow(infos: seq<Info>, sts: seq<AreaState>, mode: Mode, seen: seq<Read>,
                                       k: nat, i: nat)
    requires AllFit(infos, sts) && SeenFit(infos, seen) && k < |infos| && i < infos[k].words
    requires Survivor(sts[k], mode, seen[k], i)
    ensures var r := Rank(infos, sts, mode, seen, k, i);
            var rows := RoundRows(infos, sts, mode, seen, |infos|);
            r < |rows| && rows[r] == HitOf(infos[k], sts[k], seen[k], i)
  {
    var before, area := RoundRows(infos, sts, mode, seen, k), AreaRows(infos[k], sts[k], mode, seen[k], infos[k].words);
    var part := AreaRows(infos[k], sts[k], mode, seen[k], i);
    AreaRowsPrefix(infos[k], sts[k], mode, seen[k], i + 1, infos[k].words);
    assert part + [HitOf(infos[k], sts[k], seen[k], i)] <= area;
    assert area[|part|] == HitOf(infos[k], sts[k], seen[k], i);
    RoundRowsPrefix(infos, sts, mode, seen, k + 1, |infos|);
    assert RoundRows(infos, sts, mode, seen, k + 1) == before + area;
    assert (before + area)[|before| + |part|] == area[|part|];
  }

  lemma {:induction false} AreaRowOrigin(info: Info, st: AreaState, mode: Mode, read: Read, n: nat,
                                         j: nat) returns (i: nat)
    requires Fits(st, info.words) && ReadFits(read, info.words) && n <= info.words
    requires j < |AreaRows(info, st, mode, read, n)|
    ensures i < n && Survivor(st, mode, read, i)
    ensures AreaRows(info, st, mode, read, n)[j] == HitOf(info, st, read, i)
    ensures |AreaRows(info, st, mode, read, i)| == j
  {
    if j < |AreaRows(info, st, mode, read, n - 1)| {
      i := AreaRowOrigin(info, st, mode, read, n - 1, j);
    } else {
      i := n - 1;
    }
  }

  /** Every row is a survivor's row. */
  lemma {:induction false} RowOrigin(infos: seq<Info>, sts: seq<AreaState>, mode: Mode, seen: seq<Read>, n: nat, j: nat)
    returns (k: nat, i: nat)
    requires AllFit(infos, sts) && SeenFit(infos, seen) && n <= |infos|
    requires j < |RoundRows(infos, sts, mode, seen, n)|
    ensures k < n && i < infos[k].words && Survivor(sts[k], mode, seen[k], i)
    ensures j == Rank(infos, sts, mode, seen, k, i)
    ensures RoundRows(infos, sts, mode, seen, n)[j] == HitOf(infos[k], sts[k], seen[k], i)
  {
    var before := RoundRows(infos, sts, mode, seen, n - 1);
    if j < |before| {
      k, i := RowOrigin(infos, sts, mode, seen, n - 1, j);
    } else {
      k := n - 1;
      i := AreaRowOrigin(infos[k], sts[k], mode, seen[k], infos[k].words, j - |before|);
    }
  }

  // ---- what a round keeps, told without the model's own tests ----

  /** Word i of area k is watched and has been read again. */
  predicate Compared(infos: seq<Info>, sts: seq<AreaState>, seen: seq<Read>, k: int, i: int)
    requires AllFit(infos, sts) && SeenFit(infos, seen)
  {
    0 <= k < |infos| && 0 <= i < infos[k].words && sts[k].Watched? && !sts[k].out[i] && seen[k].Some?
  }

  /** h says where this word is, what it was and what it is. */
  predicate Describes(infos: seq<Info>, sts: seq<AreaState>, seen: seq<Read>, k: int, i: int, h: Hit)
    requires AllFit(infos, sts) && SeenFit(infos, seen)
  {
    && Compared(infos, sts, seen, k, i)
    && h == Hit(infos[k].start + 8 * i, sts[k].snap[i], seen[k].value[i], infos[k].name)
  }

  /** In a Changed round every row shows two different values, in an Unchanged
      round twice the same, at the word's own address; and every watched word
      whose values differ, or agree, has its row. */
  lemma RowsExactly(infos: seq<Info>, sts: seq<AreaState>, mode: Mode, seen: seq<Read>)
    requires AllFit(infos, sts) && SeenFit(infos, seen)
    ensures var rows := RoundRows(infos, sts, mode, seen, |infos|);
            && (forall j | 0 <= j < |rows| ::
                  && (rows[j].orig != rows[j].modd <==> mode == Changed)
                  && exists k, i :: Describes(infos, sts, seen, k, i, rows[j]))
            && (forall k, i, h | Describes(infos, sts, seen, k, i, h) && (h.orig != h.modd <==> mode == Changed) ::
                  h in rows)
  {
    var rows := RoundRows(infos, sts, mode, seen, |infos|);
    forall j | 0 <= j < |rows|
      ensures rows[j].orig != rows[j].modd <==> mode == Changed
      ensures exists k, i :: Describes(infos, sts, seen, k, i, rows[j])
    {
      var k, i := RowOrigin(infos, sts, mode, seen, |infos|, j);
      assert Describes(infos, sts, seen, k, i, rows[j]);
    }
    forall k, i, h | Describes(infos, sts, seen, k, i, h) && (h.orig != h.modd <==> mode == Changed) ensures h in rows {
      SurvivorRow(infos, sts, mode, seen, k, i);
    }
  }

  // ---- distinct addresses ----

  ghost predicate Disjoint(infos: seq<Info>) {
    forall j, k | 0 <= j < k < |infos| ::
      infos[j].start + 8 * infos[j].words <= infos[k].start || infos[k].start + 8 * infos[k].words <= infos[j].start
  }

  ghost predicate Spaced(rows: seq<Hit>) {
    forall i, j | 0 <= i < j < |rows| :: Apart(rows[i].addr, rows[j].addr)
  }

  /** Over disjoint areas no two rows share a byte. */
  lemma RowsSpaced(infos: seq<Info>, sts: seq<AreaState>, mode: Mode, seen: seq<Read>)
    requires AllFit(infos, sts) && SeenFit(infos, seen) && Disjoint(infos)
    ensures Spaced(RoundRows(infos, sts, mode, seen, |infos|))
  {
    var rows := RoundRows(infos, sts, mode, seen, |infos|);
    forall a, b | 0 <= a < b < |rows| ensures Apart(rows[a].addr, rows[b].addr) {
      var k, i := RowOrigin(infos, sts, mode, seen, |infos|, a);
      var k', i' := RowOrigin(infos, sts, mode, seen, |infos|, b);
      if k == k' {
        assert i != i';
      } else if k < k' {
        assert infos[k].start + 8 * infos[k].words <= infos[k'].start
               || infos[k'].start + 8 * infos[k'].words <= infos[k].start;
      } else {
        assert infos[k'].start + 8 * infos[k'].words <= infos[k].start
               || infos[k].start + 8 * infos[k].words <= infos[k'].start;
      }
    }
  }
}
