/** The scanner against a specification that remembers every snapshot. */
module ScanHistory {
  import opened Memory
  import opened ScanModel

  datatype Round = Round(mode: Mode, read: Read)

  /** One area's state after the initial read and some rounds. */
  function After(first: Read, rounds: seq<Round>): AreaState
    requires first.Some? ==> forall k | 0 <= k < |rounds| :: ReadFits(rounds[k].read, |first.value|)
    ensures first.Some? ==> Fits(After(first, rounds), |first.value|)
    ensures first.None? ==> After(first, rounds).Gone?
  {
    if |rounds| == 0 then
      match first
      case None => Gone
      case Some(words) => Watched(words, seq(|words|, _ => false))
    else
      var last := rounds[|rounds| - 1];
      ScanArea(After(first, rounds[..|rounds| - 1]), last.mode, last.read)
  }

  /** The k-th full snapshot; the 0-th is the initial read. */
  function Snapshot(first: Read, rounds: seq<Round>, k: nat): Read
    requires k <= |rounds|
  {
    if k == 0 then first else rounds[k - 1].read
  }

  ghost predicate AllRead(first: Read, rounds: seq<Round>, words: nat) {
    forall k | 0 <= k <= |rounds| ::
      Snapshot(first, rounds, k).Some? && |Snapshot(first, rounds, k).value| == words
  }

  /** Between every two consecutive snapshots, word i did what that round asked. */
  ghost predicate AlwaysKept(first: Read, rounds: seq<Round>, words: nat, i: nat)
    requires AllRead(first, rounds, words) && i < words
  {
    forall k | 0 <= k < |rounds| ::
      Keep(rounds[k].mode, Snapshot(first, rounds, k).value[i], Snapshot(first, rounds, k + 1).value[i])
  }

  ghost predicate StillValid(first: Read, rounds: seq<Round>, words: nat) {
    && AllRead(first, rounds, words)
    && (rounds != [] ==> exists i | 0 <= i < words :: AlwaysKept(first, rounds, words, i))
  }

  lemma AllReadSplit(first: Read, rounds: seq<Round>, words: nat)
    requires rounds != []
    ensures AllRead(first, rounds, words) <==>
            AllRead(first, rounds[..|rounds| - 1], words) &&
            rounds[|rounds| - 1].read.Some? && |rounds[|rounds| - 1].read.value| == words
  {
    var init, n := rounds[..|rounds| - 1], |rounds|;
    forall k | 0 <= k < n ensures Snapshot(first, init, k) == Snapshot(first, rounds, k) { }
    assert Snapshot(first, rounds, n) == rounds[n - 1].read;
    if AllRead(first, rounds, words) {
      forall k | 0 <= k <= |init|
        ensures Snapshot(first, init, k).Some? && |Snapshot(first, init, k).value| == words
      { assert Snapshot(first, rounds, k).Some?; }
    }
  }

  lemma AlwaysKeptSplit(first: Read, rounds: seq<Round>, words: nat, i: nat)
    requires rounds != [] && AllRead(first, rounds, words) && i < words
    requires AllRead(first, rounds[..|rounds| - 1], words)
    ensures var init, n := rounds[..|rounds| - 1], |rounds|;
            AlwaysKept(first, rounds, words, i) <==>
            AlwaysKept(first, init, words, i) &&
            Keep(rounds[n - 1].mode, Snapshot(first, init, n - 1).value[i], Snapshot(first, rounds, n).value[i])
  {
    var init, n := rounds[..|rounds| - 1], |rounds|;
    forall k | 0 <= k < n ensures Snapshot(first, init, k) == Snapshot(first, rounds, k) { }
    assert Snapshot(first, rounds, n) == rounds[n - 1].read;
    forall k | 0 <= k < n - 1 ensures init[k] == rounds[k] { }
    if AlwaysKept(first, rounds, words, i) {
      assert Keep(rounds[n - 1].mode, Snapshot(first, rounds, n - 1).value[i], Snapshot(first, rounds, n).value[i]);
      forall k | 0 <= k < |init|
        ensures Keep(init[k].mode, Snapshot(first, init, k).value[i], Snapshot(first, init, k + 1).value[i])
      {
        assert Keep(rounds[k].mode, Snapshot(first, rounds, k).value[i], Snapshot(first, rounds, k + 1).value[i]);
      }
    }
    if AlwaysKept(first, init, words, i) &&
       Keep(rounds[n - 1].mode, Snapshot(first, init, n - 1).value[i], rounds[n - 1].read.value[i]) {
      forall k | 0 <= k < n
        ensures Keep(rounds[k].mode, Snapshot(first, rounds, k).value[i], Snapshot(first, rounds, k + 1).value[i])
      {
        if k < n - 1 {
          assert Keep(init[k].mode, Snapshot(first, init, k).value[i], Snapshot(first, init, k + 1).value[i]);
        }
      }
    }
  }

  /** One snapshot per area, refreshed only where a word survives, decides as
      if all snapshots had been kept: the area is valid exactly when every read
      succeeded and some word always did what was asked; a word is live exactly
      when it always did; and a live word's kept value is the latest one. */
  lemma {:induction false} OneSnapshotSuffices(first: Read, rounds: seq<Round>, words: nat)
    requires first.Some? ==> |first.value| == words
    requires forall k | 0 <= k < |rounds| :: ReadFits(rounds[k].read, words)
    ensures After(first, rounds).Watched? <==> StillValid(first, rounds, words)
    ensures After(first, rounds).Watched? ==>
      forall i | 0 <= i < words ::
        && (Live(After(first, rounds), i) <==> AlwaysKept(first, rounds, words, i))
        && (Live(After(first, rounds), i) ==>
              After(first, rounds).snap[i] == Snapshot(first, rounds, |rounds|).value[i])
  {
    if rounds == [] {
      assert Snapshot(first, rounds, 0) == first;
    } else {
      var init, n := rounds[..|rounds| - 1], |rounds|;
      var last := rounds[n - 1];
      var st := After(first, init);
      OneSnapshotSuffices(first, init, words);
      AllReadSplit(first, rounds, words);
      if AllRead(first, rounds, words) {
        assert Snapshot(first, rounds, n) == last.read;
        var f := Filter(st, last.mode, last.read);
        forall i | 0 <= i < words
          ensures Live(f, i) <==> st.Watched? && AlwaysKept(first, rounds, words, i)
          ensures Live(f, i) ==> f.snap[i] == last.read.value[i]
        {
          AlwaysKeptSplit(first, rounds, words, i);
        }
        if i :| 0 <= i < words && AlwaysKept(first, rounds, words, i) {
          AlwaysKeptSplit(first, rounds, words, i);
          assert StillValid(first, init, words);
          assert Live(f, i) && !f.out[i];
        }
        if After(first, rounds).Watched? {
          assert f.Watched? && !AllOut(f.out);
          var i :| 0 <= i < |f.out| && !f.out[i];
          assert Live(f, i);
        }
      }
    }
  }

  // ---- whole sessions of the command loop ----

  datatype Command =
    | Scan(mode: Mode, seen: seq<Read>)
    | Write(addr: int, value: Word)
    | Restore
    | Observe

  ghost predicate CommandsFit(infos: seq<Info>, cmds: seq<Command>) {
    forall c | 0 <= c < |cmds| :: cmds[c].Scan? ==> SeenFit(infos, cmds[c].seen)
  }

  function InitialStates(infos: seq<Info>, first: seq<Read>): (sts: seq<AreaState>)
    requires SeenFit(infos, first)
    ensures AllFit(infos, sts)
  {
    seq(|infos|, k requires 0 <= k < |infos| => After(first[k], []))
  }

  function Perform(infos: seq<Info>, sts: seq<AreaState>, c: Command): (r: seq<AreaState>)
    requires AllFit(infos, sts) && (c.Scan? ==> SeenFit(infos, c.seen))
    ensures AllFit(infos, r)
  {
    if c.Scan? then ScanAll(infos, sts, c.mode, c.seen) else sts
  }

  /** The area states after a session. */
  function Session(infos: seq<Info>, sts: seq<AreaState>, cmds: seq<Command>): (r: seq<AreaState>)
    requires AllFit(infos, sts) && CommandsFit(infos, cmds)
    ensures AllFit(infos, r)
    decreases |cmds|
  {
    if cmds == [] then sts
    else Perform(infos, Session(infos, sts, cmds[..|cmds| - 1]), cmds[|cmds| - 1])
  }

  /** The rounds that area k saw. */
  function RoundsOf(infos: seq<Info>, cmds: seq<Command>, k: nat): (rounds: seq<Round>)
    requires CommandsFit(infos, cmds) && k < |infos|
    ensures forall r | 0 <= r < |rounds| :: ReadFits(rounds[r].read, infos[k].words)
    decreases |cmds|
  {
    if cmds == [] then []
    else
      var before := RoundsOf(infos, cmds[..|cmds| - 1], k);
      var c := cmds[|cmds| - 1];
      if c.Scan? then before + [Round(c.mode, c.seen[k])] else before
  }

  /** In a session, each area depends only on its own rounds. */
  lemma {:induction false} SessionByArea(infos: seq<Info>, first: seq<Read>, cmds: seq<Command>, k: nat)
    requires SeenFit(infos, first) && CommandsFit(infos, cmds) && k < |infos|
    ensures Session(infos, InitialStates(infos, first), cmds)[k] == After(first[k], RoundsOf(infos, cmds, k))
    decreases |cmds|
  {
    if cmds != [] {
      var init, c := cmds[..|cmds| - 1], cmds[|cmds| - 1];
      SessionByArea(infos, first, init, k);
      var rounds := RoundsOf(infos, init, k);
      if c.Scan? {
        var more := rounds + [Round(c.mode, c.seen[k])];
        assert more[..|more| - 1] == rounds;
      }
    }
  }

  /** For every session over arbitrary memory and read failures: area k is
      valid and its word i live exactly as the remembered history says. */
  lemma SessionRefinesHistory(infos: seq<Info>, first: seq<Read>, cmds: seq<Command>, k: nat, i: nat)
    requires SeenFit(infos, first) && CommandsFit(infos, cmds) && k < |infos| && i < infos[k].words
    ensures var st := Session(infos, InitialStates(infos, first), cmds)[k];
            var rounds := RoundsOf(infos, cmds, k);
            && (st.Watched? <==> StillValid(first[k], rounds, infos[k].words))
            && (Live(st, i) <==> StillValid(first[k], rounds, infos[k].words) &&
                                 AlwaysKept(first[k], rounds, infos[k].words, i))
            && (Live(st, i) ==> st.snap[i] == Snapshot(first[k], rounds, |rounds|).value[i])
  {
    SessionByArea(infos, first, cmds, k);
    OneSnapshotSuffices(first[k], RoundsOf(infos, cmds, k), infos[k].words);
  }

  /** Nothing comes back: after more commands, an area is valid only if it was,
      a word live only if it was, and a valid area that has been through a round
      has a live word. */
  lemma {:induction false} SessionOnlyShrinks(infos: seq<Info>, sts: seq<AreaState>, cmds: seq<Command>, k: nat)
    requires AllFit(infos, sts) && CommandsFit(infos, cmds) && k < |infos|
    ensures var st := Session(infos, sts, cmds)[k];
            && (st.Watched? ==> sts[k].Watched?)
            && (forall i :: Live(st, i) ==> Live(sts[k], i))
            && (st.Watched? && (exists c | 0 <= c < |cmds| :: cmds[c].Scan?) ==> exists i :: Live(st, i))
    decreases |cmds|
  {
    if cmds != [] {
      var init, c := cmds[..|cmds| - 1], cmds[|cmds| - 1];
      SessionOnlyShrinks(infos, sts, init, k);
      var st := Session(infos, sts, init)[k];
      if c.Scan? {
        var f := Filter(st, c.mode, c.seen[k]);
        assert forall i :: Live(f, i) ==> Live(st, i);
        if f.Watched? && !AllOut(f.out) {
          var i :| 0 <= i < |f.out| && !f.out[i];
          assert Live(f, i);
        }
      } else if b :| 0 <= b < |cmds| && cmds[b].Scan? {
        assert init[b].Scan?;
      }
    }
  }
}
