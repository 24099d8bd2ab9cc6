/** What the command loop of the scanner does to the tracee's memory and what it
    shows, command by command. */
module ScanSession {
  import opened Memory
  import opened ScanModel
  import opened ScanHistory
  import opened ScanRestore

  /** What a command prints: the rows of a round, or the words observed. */
  datatype Output = Silent | Listed(rows: seq<Hit>) | Values(values: seq<Word>)

  /** The rows of the last round of a session, none before the first. */
  function LastRows(infos: seq<Info>, sts: seq<AreaState>, cmds: seq<Command>): seq<Hit>
    requires AllFit(infos, sts) && CommandsFit(infos, cmds)
    decreases |cmds|
  {
    if cmds == [] then []
    else
      var init, c := cmds[..|cmds| - 1], cmds[|cmds| - 1];
      if c.Scan? then RoundRows(infos, Session(infos, sts, init), c.mode, c.seen, |infos|)
      else LastRows(infos, sts, init)
  }

  /** What a command makes of the tracee's memory, after a round with these rows. */
  function MemAfter(rows: seq<Hit>, c: Command, m: Mem): Mem {
    match c
    case Write(address, value) => WriteWord(m, address, value)
    case Restore => if |rows| > MAX_HITS then m else RestoreRows(m, rows)
    case _ => m
  }

  /** What observing shows for the first n hits: the words now at their
      addresses; where one cannot be read, the value left over from before. */
  function Shown(m: Mem, table: seq<Hit>, garbage: Word, n: nat): (values: seq<Word>)
    requires n <= |table|
    ensures |values| == n
  {
    if n == 0 then []
    else
      var before := Shown(m, table, garbage, n - 1);
      before + [if Mapped(m, table[n - 1].addr) then ReadWord(m, table[n - 1].addr)
                else if n == 1 then garbage
                else before[n - 2]]
  }

  lemma {:induction false} ShownPrefix(m: Mem, table: seq<Hit>, rows: seq<Hit>, garbage: Word, n: nat)
    requires n <= |table| && n <= |rows| && table[..n] == rows[..n]
    ensures Shown(m, table, garbage, n) == Shown(m, rows, garbage, n)
  {
    if n > 0 {
      assert table[..n][n - 1] == rows[..n][n - 1];
      assert table[..n][..n - 1] == table[..n - 1] && rows[..n][..n - 1] == rows[..n - 1];
      ShownPrefix(m, table, rows, garbage, n - 1);
    }
  }

  /** What a command prints: a round its rows if they are fewer than 300. */
  function OutputOf(infos: seq<Info>, sts: seq<AreaState>, rows: seq<Hit>, c: Command, m: Mem, garbage: Word): Output
    requires AllFit(infos, sts) && (c.Scan? ==> SeenFit(infos, c.seen))
  {
    match c
    case Scan(mode, seen) =>
      var found := RoundRows(infos, sts, mode, seen, |infos|);
      Listed(if |found| < MAX_HITS then found else [])
    case Observe => Values(if |rows| > MAX_HITS then [] else Shown(m, rows, garbage, |rows|))
    case _ => Silent
  }

  /** One command of a session: the memory it was given and left, what was in
      the observer's variable, and what it printed. */
  datatype Record = Record(before: Mem, garbage: Word, after: Mem, out: Output)

  ghost predicate RecordIs(infos: seq<Info>, sts: seq<AreaState>, cmds: seq<Command>, c: nat, r: Record)
    requires AllFit(infos, sts) && CommandsFit(infos, cmds) && c < |cmds|
  {
    var rows := LastRows(infos, sts, cmds[..c]);
    && r.after == MemAfter(rows, cmds[c], r.before)
    && r.out == OutputOf(infos, Session(infos, sts, cmds[..c]), rows, cmds[c], r.before, r.garbage)
  }

  /** The records of the first |rs| commands. */
  ghost predicate Recording(infos: seq<Info>, sts: seq<AreaState>, cmds: seq<Command>, rs: seq<Record>)
    requires AllFit(infos, sts) && CommandsFit(infos, cmds)
  {
    |rs| <= |cmds| && forall c | 0 <= c < |rs| :: RecordIs(infos, sts, cmds, c, rs[c])
  }

  lemma RecordOneMore(infos: seq<Info>, sts: seq<AreaState>, cmds: seq<Command>, rs: seq<Record>, r: Record)
    requires AllFit(infos, sts) && CommandsFit(infos, cmds) && Recording(infos, sts, cmds, rs) && |rs| < |cmds|
    requires RecordIs(infos, sts, cmds, |rs|, r)
    ensures Recording(infos, sts, cmds, rs + [r])
  {
  }

  lemma CommandsOneMore(infos: seq<Info>, sts: seq<AreaState>, cmds: seq<Command>, c: nat)
    requires AllFit(infos, sts) && CommandsFit(infos, cmds) && c < |cmds|
    ensures Session(infos, sts, cmds[..c + 1]) == Perform(infos, Session(infos, sts, cmds[..c]), cmds[c])
    ensures LastRows(infos, sts, cmds[..c + 1]) ==
            if cmds[c].Scan?
            then RoundRows(infos, Session(infos, sts, cmds[..c]), cmds[c].mode, cmds[c].seen, |infos|)
            else LastRows(infos, sts, cmds[..c])
  {
    assert cmds[..c + 1][..c] == cmds[..c];
  }

  // ---- what the user is promised ----

  /** The last round before command c, or -1. */
  function LastScan(cmds: seq<Command>, c: nat): (s: int)
    requires c <= |cmds|
    ensures -1 <= s < c && (s >= 0 ==> cmds[s].Scan?)
    ensures forall i | s < i < c :: !cmds[i].Scan?
  {
    if c == 0 then -1 else if cmds[c - 1].Scan? then c - 1 else LastScan(cmds, c - 1)
  }

  lemma {:induction false} LastRowsAt(infos: seq<Info>, sts: seq<AreaState>, cmds: seq<Command>, c: nat)
    requires AllFit(infos, sts) && CommandsFit(infos, cmds) && c <= |cmds|
    ensures var s := LastScan(cmds, c);
            LastRows(infos, sts, cmds[..c]) ==
            if s == -1 then []
            else RoundRows(infos, Session(infos, sts, cmds[..s]), cmds[s].mode, cmds[s].seen, |infos|)
  {
    if c > 0 {
      LastRowsAt(infos, sts, cmds, c - 1);
      CommandsOneMore(infos, sts, cmds, c - 1);
    }
  }

  /** Word i of area k is still watched. */
  predicate StillIn(infos: seq<Info>, kept: seq<AreaState>, k: int, i: int)
    requires AllFit(infos, kept)
  {
    0 <= k < |infos| && 0 <= i < infos[k].words && kept[k].Watched? && !kept[k].out[i]
  }

  /** Byte b belongs to such a word. */
  ghost predicate InWatchedWord(infos: seq<Info>, kept: seq<AreaState>, b: int)
    requires AllFit(infos, kept)
  {
    exists k, i :: StillIn(infos, kept, k, i) && infos[k].start + 8 * i <= b < infos[k].start + 8 * i + 8
  }

  /** Where mapped, word i of area k reads its value before the round. */
  predicate WordBack(infos: seq<Info>, sts: seq<AreaState>, k: int, i: int, m: Mem, m': Mem)
    requires AllFit(infos, sts) && 0 <= k < |infos| && 0 <= i < infos[k].words && sts[k].Watched?
  {
    Mapped(m, infos[k].start + 8 * i) ==> ReadWord(m', infos[k].start + 8 * i) == sts[k].snap[i]
  }

  ghost predicate NoneNew(sts: seq<AreaState>, kept: seq<AreaState>) {
    |sts| == |kept| && forall k | 0 <= k < |sts| && kept[k].Watched? :: sts[k].Watched?
  }

  ghost predicate AllBack(infos: seq<Info>, sts: seq<AreaState>, kept: seq<AreaState>, m: Mem, m': Mem)
    requires AllFit(infos, sts) && AllFit(infos, kept) && NoneNew(sts, kept)
  {
    && m'.Keys == m.Keys
    && (forall k, i | StillIn(infos, kept, k, i) :: WordBack(infos, sts, k, i, m, m'))
    && (forall b | b in m && !InWatchedWord(infos, kept, b) :: m'[b] == m[b])
  }

  /** Up to 300 watched words all read their values before the round again, no
      other byte changes; with more nothing does. */
  ghost predicate Undone(infos: seq<Info>, sts: seq<AreaState>, kept: seq<AreaState>, m: Mem, m': Mem)
    requires AllFit(infos, sts) && AllFit(infos, kept)
  {
    NoneNew(sts, kept) && if LiveTotal(kept, |kept|) > 300 then m' == m else AllBack(infos, sts, kept, m, m')
  }

  /** The eight bytes from a on are those of w, or nothing if one is unmapped. */
  ghost predicate Written(m: Mem, m': Mem, a: int, w: Word) {
    && m'.Keys == m.Keys
    && forall b | b in m :: m'[b] == if Mapped(m, a) && a <= b < a + 8 then w[b - a] else m[b]
  }

  lemma KeptWatched(infos: seq<Info>, sts: seq<AreaState>, mode: Mode, seen: seq<Read>)
    requires AllFit(infos, sts) && SeenFit(infos, seen)
    ensures NoneNew(sts, ScanAll(infos, sts, mode, seen))
  {
  }

  lemma StillInIsLive(infos: seq<Info>, kept: seq<AreaState>, b: int)
    requires AllFit(infos, kept)
    ensures InLiveWord(infos, kept, b) ==> InWatchedWord(infos, kept, b)
  {
    if k, i :| InWord(infos, kept, k, i, b) { assert StillIn(infos, kept, k, i); }
  }

  lemma WordRestored(infos: seq<Info>, sts: seq<AreaState>, mode: Mode, seen: seq<Read>, m: Mem, k: int, i: int,
                     a: int)
    requires AllFit(infos, sts) && SeenFit(infos, seen) && Disjoint(infos)
    requires 0 <= k < |infos| && Survivor(sts[k], mode, seen[k], i) && a == WordAt(infos[k], i) && Mapped(m, a)
    ensures ReadWord(RestoreRows(m, RoundRows(infos, sts, mode, seen, |infos|)), a) == sts[k].snap[i]
  {
    var rows := RoundRows(infos, sts, mode, seen, |infos|);
    RowsSpaced(infos, sts, mode, seen);
    RestoreBringsBack(m, rows);
    RoundRowsList(infos, sts, mode, seen);
    LiveWordRestored(infos, sts, mode, seen, rows, m, RestoreRows(m, rows), k, i);
  }

  lemma StillInSurvives(infos: seq<Info>, sts: seq<AreaState>, mode: Mode, seen: seq<Read>, k: int, i: int)
    requires AllFit(infos, sts) && SeenFit(infos, seen) && StillIn(infos, ScanAll(infos, sts, mode, seen), k, i)
    ensures Survivor(sts[k], mode, seen[k], i)
  {
    SurvivorIsLive(sts[k], mode, seen[k], i);
  }

  lemma BackIf(infos: seq<Info>, sts: seq<AreaState>, k: int, i: int, m: Mem, m': Mem, a: int)
    requires AllFit(infos, sts) && 0 <= k < |infos| && 0 <= i < infos[k].words && sts[k].Watched?
    requires a == WordAt(infos[k], i) && (Mapped(m, a) ==> ReadWord(m', a) == sts[k].snap[i])
    ensures WordBack(infos, sts, k, i, m, m')
  {
    assert a == infos[k].start + 8 * i;
  }

  lemma WordIsBack(infos: seq<Info>, sts: seq<AreaState>, mode: Mode, seen: seq<Read>, m: Mem, k: int, i: int)
    requires AllFit(infos, sts) && SeenFit(infos, seen) && Disjoint(infos)
    requires 0 <= k < |infos| && 0 <= i < infos[k].words && Survivor(sts[k], mode, seen[k], i)
    ensures WordBack(infos, sts, k, i, m, RestoreRows(m, RoundRows(infos, sts, mode, seen, |infos|)))
  {
    var a := WordAt(infos[k], i);
    if Mapped(m, a) { WordRestored(infos, sts, mode, seen, m, k, i, a); }
    BackIf(infos, sts, k, i, m, RestoreRows(m, RoundRows(infos, sts, mode, seen, |infos|)), a);
  }

  lemma RowsBack(infos: seq<Info>, sts: seq<AreaState>, mode: Mode, seen: seq<Read>, m: Mem)
    requires AllFit(infos, sts) && SeenFit(infos, seen) && Disjoint(infos)
    requires NoneNew(sts, ScanAll(infos, sts, mode, seen))
    ensures AllBack(infos, sts, ScanAll(infos, sts, mode, seen), m,
                    RestoreRows(m, RoundRows(infos, sts, mode, seen, |infos|)))
  {
    var kept, m' := ScanAll(infos, sts, mode, seen), RestoreRows(m, RoundRows(infos, sts, mode, seen, |infos|));
    forall k, i | StillIn(infos, kept, k, i) ensures WordBack(infos, sts, k, i, m, m') {
      StillInSurvives(infos, sts, mode, seen, k, i);
      WordIsBack(infos, sts, mode, seen, m, k, i);
    }
    forall b | b in m && !InWatchedWord(infos, kept, b) ensures m'[b] == m[b] {
      StillInIsLive(infos, kept, b);
      DeadByteKept(infos, sts, mode, seen, m, b);
    }
  }

  lemma RestoreUndoes(infos: seq<Info>, sts: seq<AreaState>, mode: Mode, seen: seq<Read>, m: Mem)
    requires AllFit(infos, sts) && SeenFit(infos, seen) && Disjoint(infos)
    ensures Undone(infos, sts, ScanAll(infos, sts, mode, seen), m,
                   MemAfter(RoundRows(infos, sts, mode, seen, |infos|), Restore, m))
  {
    HitsAreLiveWords(infos, sts, mode, seen, |infos|);
    KeptWatched(infos, sts, mode, seen);
    RowsBack(infos, sts, mode, seen, m);
  }

  /** Value j is the word that now stands at row j's address, or the value before
      it where that word cannot be read. */
  predicate ShowsRow(rows: seq<Hit>, m: Mem, garbage: Word, values: seq<Word>, j: nat)
    requires j < |rows| && j < |values|
  {
    values[j] == if Mapped(m, rows[j].addr) then ReadWord(m, rows[j].addr)
                 else if j == 0 then garbage else values[j - 1]
  }

  /** One value for each of up to 300 rows, none for more. */
  ghost predicate ShowsNow(rows: seq<Hit>, m: Mem, garbage: Word, values: seq<Word>) {
    && |values| == (if |rows| > 300 then 0 else |rows|)
    && forall j | 0 <= j < |values| :: ShowsRow(rows, m, garbage, values, j)
  }

  lemma {:induction false} ShownMeans(m: Mem, rows: seq<Hit>, garbage: Word, n: nat)
    requires n <= |rows|
    ensures forall j | 0 <= j < n :: ShowsRow(rows, m, garbage, Shown(m, rows, garbage, n), j)
  {
    if n > 0 {
      var before, values := Shown(m, rows, garbage, n - 1), Shown(m, rows, garbage, n);
      ShownMeans(m, rows, garbage, n - 1);
      assert forall j | 0 <= j < n - 1 :: values[j] == before[j];
      forall j | 0 <= j < n ensures ShowsRow(rows, m, garbage, values, j) {
        if j < n - 1 { assert ShowsRow(rows, m, garbage, before, j); }
      }
    }
  }

  /** The list printed for a round: fewer than 300 watched words are all in it,
      each with its address and the values before and after; 300 or more are
      not listed. */
  ghost predicate ListsRound(infos: seq<Info>, sts: seq<AreaState>, mode: Mode, seen: seq<Read>,
                             kept: seq<AreaState>, rows: seq<Hit>)
    requires AllFit(infos, sts) && SeenFit(infos, seen)
  {
    var n := LiveTotal(kept, |kept|);
    && |rows| == (if n < 300 then n else 0)
    && (forall j | 0 <= j < |rows| ::
          && (rows[j].orig != rows[j].modd <==> mode == Changed)
          && exists k, i :: Describes(infos, sts, seen, k, i, rows[j]))
    && (n < 300 ==>
          forall k, i, h | Describes(infos, sts, seen, k, i, h) && (h.orig != h.modd <==> mode == Changed) ::
            h in rows)
  }

  /** What each command does to memory and prints, whatever came before it. */
  ghost predicate Promised(infos: seq<Info>, sts: seq<AreaState>, cmds: seq<Command>, c: nat, r: Record)
    requires AllFit(infos, sts) && CommandsFit(infos, cmds) && c < |cmds|
  {
    var s := LastScan(cmds, c);
    match cmds[c]
    case Write(a, w) => r.out == Silent && Written(r.before, r.after, a, w)
    case Restore =>
      && r.out == Silent
      && (s == -1 ==> r.after == r.before)
      && (s >= 0 && Disjoint(infos) ==>
            Undone(infos, Session(infos, sts, cmds[..s]), Session(infos, sts, cmds[..s + 1]), r.before, r.after))
    case Observe =>
      && r.after == r.before && r.out.Values?
      && (s == -1 ==> r.out.values == [])
      && (s >= 0 ==>
            ShowsNow(RoundRows(infos, Session(infos, sts, cmds[..s]), cmds[s].mode, cmds[s].seen, |infos|),
                     r.before, r.garbage, r.out.values))
    case Scan(mode, seen) =>
      && r.after == r.before && r.out.Listed?
      && ListsRound(infos, Session(infos, sts, cmds[..c]), mode, seen, Session(infos, sts, cmds[..c + 1]), r.out.rows)
  }

  lemma RoundLists(infos: seq<Info>, sts: seq<AreaState>, mode: Mode, seen: seq<Read>)
    requires AllFit(infos, sts) && SeenFit(infos, seen)
    ensures var found := RoundRows(infos, sts, mode, seen, |infos|);
            ListsRound(infos, sts, mode, seen, ScanAll(infos, sts, mode, seen),
                       if |found| < MAX_HITS then found else [])
  {
    HitsAreLiveWords(infos, sts, mode, seen, |infos|);
    RowsExactly(infos, sts, mode, seen);
  }

  lemma RestoreAfterScan(infos: seq<Info>, sts: seq<AreaState>, cmds: seq<Command>, s: nat, m: Mem)
    requires AllFit(infos, sts) && CommandsFit(infos, cmds) && Disjoint(infos) && s < |cmds| && cmds[s].Scan?
    ensures var rows := RoundRows(infos, Session(infos, sts, cmds[..s]), cmds[s].mode, cmds[s].seen, |infos|);
            Undone(infos, Session(infos, sts, cmds[..s]), Session(infos, sts, cmds[..s + 1]), m,
                   MemAfter(rows, Restore, m))
  {
    CommandsOneMore(infos, sts, cmds, s);
    RestoreUndoes(infos, Session(infos, sts, cmds[..s]), cmds[s].mode, cmds[s].seen, m);
  }

  lemma RestorePromised(infos: seq<Info>, sts: seq<AreaState>, cmds: seq<Command>, c: nat, r: Record)
    requires AllFit(infos, sts) && CommandsFit(infos, cmds) && c < |cmds| && cmds[c].Restore?
    requires RecordIs(infos, sts, cmds, c, r)
    ensures Promised(infos, sts, cmds, c, r)
  {
    var s := LastScan(cmds, c);
    LastRowsAt(infos, sts, cmds, c);
    if s >= 0 && Disjoint(infos) { RestoreAfterScan(infos, sts, cmds, s, r.before); }
  }

  lemma ObservePromised(infos: seq<Info>, sts: seq<AreaState>, cmds: seq<Command>, c: nat, r: Record)
    requires AllFit(infos, sts) && CommandsFit(infos, cmds) && c < |cmds| && cmds[c].Observe?
    requires RecordIs(infos, sts, cmds, c, r)
    ensures Promised(infos, sts, cmds, c, r)
  {
    var rows := LastRows(infos, sts, cmds[..c]);
    LastRowsAt(infos, sts, cmds, c);
    ShownMeans(r.before, rows, r.garbage, |rows|);
  }

  /** Every record of a session is as promised. */
  lemma RecordPromised(infos: seq<Info>, sts: seq<AreaState>, cmds: seq<Command>, c: nat, r: Record)
    requires AllFit(infos, sts) && CommandsFit(infos, cmds) && c < |cmds| && RecordIs(infos, sts, cmds, c, r)
    ensures Promised(infos, sts, cmds, c, r)
  {
    match cmds[c] {
      case Write(_, _) =>
      case Restore => RestorePromised(infos, sts, cmds, c, r);
      case Observe => ObservePromised(infos, sts, cmds, c, r);
      case Scan(mode, seen) =>
        CommandsOneMore(infos, sts, cmds, c);
        RoundLists(infos, Session(infos, sts, cmds[..c]), mode, seen);
    }
  }

  ghost predicate AllPromised(infos: seq<Info>, sts: seq<AreaState>, cmds: seq<Command>, rs: seq<Record>)
    requires AllFit(infos, sts) && CommandsFit(infos, cmds)
  {
    |rs| <= |cmds| && forall c | 0 <= c < |rs| :: Promised(infos, sts, cmds, c, rs[c])
  }

  lemma RecordsPromised(infos: seq<Info>, sts: seq<AreaState>, cmds: seq<Command>, rs: seq<Record>)
    requires AllFit(infos, sts) && CommandsFit(infos, cmds) && Recording(infos, sts, cmds, rs)
    ensures AllPromised(infos, sts, cmds, rs)
  {
    forall c | 0 <= c < |rs| ensures Promised(infos, sts, cmds, c, rs[c]) {
      RecordPromised(infos, sts, cmds, c, rs[c]);
    }
  }

  /** Record c is of the c-th memory and variable. */
  ghost predicate GivenTo(rs: seq<Record>, mems: seq<Mem>, garbage: seq<Word>) {
    && |rs| == |mems| == |garbage|
    && forall c | 0 <= c < |rs| :: rs[c].before == mems[c] && rs[c].garbage == garbage[c]
  }

  lemma GivenOneMore(rs: seq<Record>, r: Record, mems: seq<Mem>, garbage: seq<Word>)
    requires |rs| < |mems| == |garbage| && GivenTo(rs, mems[..|rs|], garbage[..|rs|])
    requires r.before == mems[|rs|] && r.garbage == garbage[|rs|]
    ensures GivenTo(rs + [r], mems[..|rs| + 1], garbage[..|rs| + 1])
  {
  }
}
