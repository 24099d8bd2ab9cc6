/** Following system calls through their stops.  Entry and exit stops look the
    same, so one toggle kept across stops tells them apart. */
module SyscallTrace {
  import opened Memory

  /** What one resume leads to: refused; the tracee gone; a stop by another
      signal; or a trap, with x8 and the event message it would give. */
  datatype Stop =
    | Refused
    | Gone
    | Signal(signal: nat)
    | Trap(number: u64, msg: u64)

  datatype Event = Before(number: u64) | After(number: u64)

  /** Toggle, traced process, the connector's copy of it, plugin calls made. */
  datatype Trace = Trace(enter: bool, tracee: u64, pid: int, log: seq<Event>)

  /** Names by number: the set of numbers below 292 that have one. */
  datatype Config = Config(named: set<u64>, followFork: bool)

  const MAX_SYSCALL_NUM := 292
  const CLONE: u64 := 220

  /** futex, sched_yield, mprotect, madvise. */
  predicate Skipped(n: u64) {
    n == 98 || n == 124 || n == 226 || n == 233
  }

  predicate Reported(c: Config, n: u64) {
    n in c.named && !Skipped(n)
  }

  /** The table is indexed without a check; clone has a name. */
  ghost predicate TableOk(c: Config) {
    CLONE in c.named && forall n | n in c.named :: n < MAX_SYSCALL_NUM
  }

  ghost predicate InRange(stops: seq<Stop>) {
    forall i | 0 <= i < |stops| && stops[i].Trap? :: stops[i].number < MAX_SYSCALL_NUM
  }

  /** uint64_t to pid_t. */
  function PidOf(v: u64): int {
    var low := v % 0x1_0000_0000;
    if low < 0x8000_0000 then low else low - 0x1_0000_0000
  }

  function AfterStop(c: Config, s: Trace, stop: Stop): Trace {
    if !stop.Trap? || Skipped(stop.number) then s
    else
      var toggled :=
        if stop.number !in c.named then s
        else if s.enter then s.(enter := false, log := s.log + [Before(stop.number)])
        else s.(enter := true, log := s.log + [After(stop.number)]);
      if c.followFork && stop.number == CLONE && toggled.enter
      then toggled.(tracee := stop.msg, pid := PidOf(stop.msg)) else toggled
  }

  function AfterStops(c: Config, s: Trace, stops: seq<Stop>): Trace
    decreases |stops|
  {
    if stops == [] then s
    else AfterStop(c, AfterStops(c, s, stops[..|stops| - 1]), stops[|stops| - 1])
  }

  /** How many stops one call takes: in strace mode it stays until a stop that
      is not a trap. */
  function Taken(stops: seq<Stop>, strace: bool): (n: nat)
    ensures n <= |stops| && (stops != [] ==> n > 0)
    decreases |stops|
  {
    if stops == [] then 0
    else if strace && stops[0].Trap? then 1 + Taken(stops[1..], strace)
    else 1
  }

  /** Without strace mode one call takes one stop; in strace mode all of them are
      traps but the last, which is no trap unless the stops have run out. */
  lemma {:induction false} CallTakes(stops: seq<Stop>, strace: bool)
    requires stops != []
    ensures var n := Taken(stops, strace);
            && 0 < n <= |stops|
            && (!strace ==> n == 1)
            && (strace ==> (forall i | 0 <= i < n - 1 :: stops[i].Trap?) && (n < |stops| ==> !stops[n - 1].Trap?))
    decreases |stops|
  {
    if strace && stops[0].Trap? && |stops| > 1 {
      CallTakes(stops[1..], strace);
      var n := Taken(stops[1..], strace);
      forall i | 0 <= i < n ensures stops[i].Trap? {
        if i > 0 { assert stops[1..][i - 1] == stops[i]; }
      }
      assert stops[1..][n - 1] == stops[n];
    }
  }

  class Tracer {
    const config: Config
    var syscallEnter: bool
    var tracee: u64
    var connectorPid: int
    var straceMode: bool
    var log: seq<Event>

    constructor (config: Config, tracee: u64)
      ensures this.config == config && !straceMode
      ensures State() == Trace(true, tracee, PidOf(tracee), [])
    {
      this.config, this.tracee, connectorPid := config, tracee, PidOf(tracee);
      syscallEnter, straceMode, log := true, false, [];
    }

    function State(): Trace
      reads this
    {
      Trace(syscallEnter, tracee, connectorPid, log)
    }

    method SetTracee(pid: u64)
      modifies this`connectorPid
      ensures connectorPid == PidOf(pid)
    {
      connectorPid := PidOf(pid);
    }

    /** One turn of the loop; done when the call returns from inside it. */
    method Turn(stop: Stop) returns (done: bool)
      requires TableOk(config) && InRange([stop])
      modifies this`syscallEnter, this`tracee, this`connectorPid, this`log
      ensures State() == AfterStop(config, old(State()), stop)
      ensures done == !stop.Trap?
    {
      match stop {
        case Refused => return true;
        case Gone => return true;
        case Signal(_) => return true;
        case Trap(syscallNum, msg) =>
          if syscallNum == 98 || syscallNum == 124 || syscallNum == 226 || syscallNum == 233 {
            return false;
          }
          assert [stop][0].number < MAX_SYSCALL_NUM;
          if syscallNum in config.named {
            if syscallEnter {
              log := log + [Before(syscallNum)];
              syscallEnter := false;
            } else {
              log := log + [After(syscallNum)];
              syscallEnter := true;
            }
          }
          if config.followFork && syscallNum == CLONE && syscallEnter {
            tracee := msg;
            SetTracee(msg);
          }
          return false;
      }
    }

    method SyscallContinue(stops: seq<Stop>) returns (used: nat)
      requires TableOk(config) && InRange(stops)
      modifies this`syscallEnter, this`tracee, this`connectorPid, this`log
      ensures used == Taken(stops, straceMode) && (stops == [] <==> used == 0)
      ensures stops != [] && !straceMode ==> used == 1
      ensures straceMode ==>
        && (forall i | 0 <= i < used - 1 :: stops[i].Trap?)
        && (0 < used < |stops| ==> !stops[used - 1].Trap?)
      ensures State() == AfterStops(config, old(State()), stops[..used])
    {
      used := 0;
      var again := true;
      assert stops[..0] == [];
      if stops != [] { CallTakes(stops, straceMode); }
      while again && used < |stops|
        invariant used <= |stops|
        invariant State() == AfterStops(config, old(State()), stops[..used])
        invariant Taken(stops, straceMode) == used + if again then Taken(stops[used..], straceMode) else 0
      {
        assert stops[..used + 1][..used] == stops[..used];
        assert stops[used..][1..] == stops[used + 1..];
        var done := Turn(stops[used]);
        used := used + 1;
        again := !done && straceMode;
      }
    }

    /** The user repeating the command until the stops are used up. */
    method TraceAll(stops: seq<Stop>)
      requires TableOk(config) && InRange(stops)
      modifies this`syscallEnter, this`tracee, this`connectorPid, this`log
      ensures State() == AfterStops(config, old(State()), stops)
    {
      var pos := 0;
      assert stops[..0] == [];
      while pos < |stops|
        invariant 0 <= pos <= |stops|
        invariant State() == AfterStops(config, old(State()), stops[..pos])
      {
        var used := SyscallContinue(stops[pos..]);
        StopsJoin(config, old(State()), stops[..pos], stops[pos..][..used]);
        assert stops[..pos] + stops[pos..][..used] == stops[..pos + used];
        pos := pos + used;
      }
      assert stops[..|stops|] == stops;
    }
  }

  lemma {:induction false} StopsJoin(c: Config, s: Trace, a: seq<Stop>, b: seq<Stop>)
    ensures AfterStops(c, s, a + b) == AfterStops(c, AfterStops(c, s, a), b)
    decreases |b|
  {
    if b == [] {
      assert a + b == a;
    } else {
      var init := b[..|b| - 1];
      StopsJoin(c, s, a, init);
      assert (a + b)[..|a + b| - 1] == a + init;
    }
  }

  // ---- what the log says, for any stops whatever ----

  /** The numbers of the trap stops that are reported, in order. */
  function ReportedStops(c: Config, stops: seq<Stop>): seq<u64>
    decreases |stops|
  {
    if stops == [] then []
    else
      var before := ReportedStops(c, stops[..|stops| - 1]);
      var last := stops[|stops| - 1];
      if last.Trap? && Reported(c, last.number) then before + [last.number] else before
  }

  /** Before and After in turn. */
  function Alternating(enter: bool, ns: seq<u64>): (log: seq<Event>)
    ensures |log| == |ns|
  {
    seq(|ns|, i requires 0 <= i < |ns| => if (i % 2 == 0) == enter then Before(ns[i]) else After(ns[i]))
  }

  lemma {:induction false} LogAlternates(c: Config, s: Trace, stops: seq<Stop>)
    ensures var s', ns := AfterStops(c, s, stops), ReportedStops(c, stops);
            && s'.log == s.log + Alternating(s.enter, ns)
            && s'.enter == (s.enter == (|ns| % 2 == 0))
    decreases |stops|
  {
    if stops != [] {
      var init, last := stops[..|stops| - 1], stops[|stops| - 1];
      LogAlternates(c, s, init);
      var ns := ReportedStops(c, init);
      if last.Trap? && Reported(c, last.number) {
        var e := if (|ns| % 2 == 0) == s.enter then Before(last.number) else After(last.number);
        assert Alternating(s.enter, ns + [last.number]) == Alternating(s.enter, ns) + [e];
      }
    }
  }

  predicate EventPair(log: seq<Event>, i: int) {
    0 <= i < |log| - 1 && log[i].Before? && log[i + 1] == After(log[i].number)
  }

  predicate NumberPair(ns: seq<u64>, i: int) {
    0 <= i < |ns| - 1 && ns[i] == ns[i + 1]
  }

  ghost predicate PairedLog(log: seq<Event>) {
    forall i | 0 <= i < |log| && i % 2 == 0 :: EventPair(log, i)
  }

  ghost predicate PairedNumbers(ns: seq<u64>) {
    forall i | 0 <= i < |ns| && i % 2 == 0 :: NumberPair(ns, i)
  }

  lemma AlternatingPair(ns: seq<u64>, i: int)
    requires i % 2 == 0
    ensures EventPair(Alternating(true, ns), i) <==> NumberPair(ns, i)
  {
  }

  /** The log pairs every Before with an After of the same call exactly when the
      reported stops come in pairs; all other stops are irrelevant. */
  lemma LogPairedExactly(c: Config, s: Trace, stops: seq<Stop>)
    requires s.enter && s.log == []
    ensures PairedLog(AfterStops(c, s, stops).log) <==> PairedNumbers(ReportedStops(c, stops))
  {
    LogAlternates(c, s, stops);
    var log, ns := AfterStops(c, s, stops).log, ReportedStops(c, stops);
    assert log == Alternating(true, ns);
    forall i | 0 <= i < |ns| && i % 2 == 0 ensures EventPair(log, i) <==> NumberPair(ns, i) {
      AlternatingPair(ns, i);
    }
  }

  // ---- well-formed streams ----

  function Traps(stops: seq<Stop>): (traps: seq<Stop>)
    ensures forall i | 0 <= i < |traps| :: traps[i].Trap?
    decreases |stops|
  {
    if stops == [] then []
    else
      var before := Traps(stops[..|stops| - 1]);
      if stops[|stops| - 1].Trap? then before + [stops[|stops| - 1]] else before
  }

  /** Each call stops twice with its number; the last may still be running. */
  ghost predicate CallByCall(traps: seq<Stop>) {
    && (forall i | 0 <= i < |traps| :: traps[i].Trap?)
    && (forall i | 0 <= i < |traps| - 1 && i % 2 == 0 :: traps[i].number == traps[i + 1].number)
  }

  /** The plugin calls that a reader expects of these stops. */
  function Expected(c: Config, traps: seq<Stop>): seq<Event>
    requires forall i | 0 <= i < |traps| :: traps[i].Trap?
    decreases |traps|
  {
    if traps == [] then []
    else
      var p := |traps| - 1;
      var n := traps[p].number;
      Expected(c, traps[..p]) +
      if !Reported(c, n) then [] else if p % 2 == 0 then [Before(n)] else [After(n)]
  }

  /** Who should be traced: the child named at the second stop of the last
      clone that has returned. */
  function Followed(c: Config, start: u64, traps: seq<Stop>): u64
    requires forall i | 0 <= i < |traps| :: traps[i].Trap?
    decreases |traps|
  {
    if traps == [] then start
    else
      var p := |traps| - 1;
      if c.followFork && p % 2 == 1 && traps[p].number == CLONE then traps[p].msg
      else Followed(c, start, traps[..p])
  }

  lemma {:induction false} OnlyTrapsMatter(c: Config, s: Trace, stops: seq<Stop>)
    ensures AfterStops(c, s, stops) == AfterStops(c, s, Traps(stops))
    decreases |stops|
  {
    if stops != [] {
      var init, last := stops[..|stops| - 1], stops[|stops| - 1];
      OnlyTrapsMatter(c, s, init);
      if last.Trap? { assert (Traps(init) + [last])[..|Traps(init)|] == Traps(init); }
    }
  }

  /** The toggle after p stops: at exit exactly inside a reported call. */
  predicate ToggleAfter(c: Config, traps: seq<Stop>)
    requires forall i | 0 <= i < |traps| :: traps[i].Trap?
  {
    |traps| % 2 == 0 || !Reported(c, traps[|traps| - 1].number)
  }

  lemma {:induction false} CallsFollowed(c: Config, s: Trace, traps: seq<Stop>)
    requires TableOk(c) && CallByCall(traps) && s.enter
    ensures var s' := AfterStops(c, s, traps);
            && s'.log == s.log + Expected(c, traps)
            && s'.enter == ToggleAfter(c, traps)
            && s'.tracee == Followed(c, s.tracee, traps)
    decreases |traps|
  {
    if traps != [] {
      var p := |traps| - 1;
      var init := traps[..p];
      assert CallByCall(init);
      CallsFollowed(c, s, init);
      if p % 2 == 1 { assert traps[p - 1].number == traps[p].number; }
    }
  }

  /** Over every stream of calls, with other stops anywhere, cut off anywhere:
      the plugin calls are exactly Before(n), After(n) for each reported call in
      order; the toggle stands at exit only inside a reported call; and the
      tracee changes exactly at the second stop of each clone. */
  lemma {:induction false} TraceCorrect(c: Config, s: Trace, stops: seq<Stop>)
    requires TableOk(c) && CallByCall(Traps(stops)) && s.enter
    ensures var s', traps := AfterStops(c, s, stops), Traps(stops);
            && s'.log == s.log + Expected(c, traps)
            && s'.enter == ToggleAfter(c, traps)
            && s'.tracee == Followed(c, s.tracee, traps)
  {
    OnlyTrapsMatter(c, s, stops);
    CallsFollowed(c, s, Traps(stops));
  }

  /** Before and After for each reported call. */
  function LogOf(c: Config, calls: seq<u64>): seq<Event>
    decreases |calls|
  {
    if calls == [] then []
    else
      var n := calls[|calls| - 1];
      LogOf(c, calls[..|calls| - 1]) + if Reported(c, n) then [Before(n), After(n)] else []
  }

  /** The traps are the entry and exit stops of these calls. */
  ghost predicate StopsOf(traps: seq<Stop>, calls: seq<u64>) {
    && |traps| == 2 * |calls|
    && (forall i | 0 <= i < |traps| :: traps[i].Trap? && traps[i].number == calls[i / 2])
  }

  lemma {:induction false} ExpectedIsLog(c: Config, traps: seq<Stop>, calls: seq<u64>)
    requires StopsOf(traps, calls)
    ensures CallByCall(traps) && Expected(c, traps) == LogOf(c, calls)
    decreases |calls|
  {
    forall i | 0 <= i < |traps| - 1 && i % 2 == 0 ensures traps[i].number == traps[i + 1].number {
      assert i / 2 == (i + 1) / 2;
    }
    if calls != [] {
      var k := |calls| - 1;
      ExpectedIsLog(c, traps[..2 * k], calls[..k]);
      assert traps[..2 * k + 1][..2 * k] == traps[..2 * k];
      assert traps[2 * k].number == calls[k] == traps[2 * k + 1].number;
      assert Expected(c, traps[..2 * k + 1]) ==
             Expected(c, traps[..2 * k]) + if Reported(c, calls[k]) then [Before(calls[k])] else [];
    }
  }

  /** For completed calls with other stops anywhere among theirs: one Before and
      one After per reported call, in order, and the toggle back at entry. */
  lemma CompletedCalls(c: Config, s: Trace, stops: seq<Stop>, calls: seq<u64>)
    requires TableOk(c) && StopsOf(Traps(stops), calls) && s.enter
    ensures AfterStops(c, s, stops).log == s.log + LogOf(c, calls)
    ensures AfterStops(c, s, stops).enter
  {
    ExpectedIsLog(c, Traps(stops), calls);
    TraceCorrect(c, s, stops);
  }

  /** For any stops before it, a stop switches the tracee exactly when forks are
      followed, it is a clone's, and the toggle stood at exit; the toggle is then
      at entry for the child. */
  lemma SwitchExactly(c: Config, s: Trace, stops: seq<Stop>, number: u64, msg: u64)
    requires TableOk(c)
    ensures var before := AfterStops(c, s, stops);
            var after := AfterStops(c, s, stops + [Trap(number, msg)]);
            var atExit := s.enter == (|ReportedStops(c, stops)| % 2 == 1);
            if c.followFork && number == 220 && atExit
            then after.tracee == msg && after.pid == PidOf(msg) && after.enter
            else after.tracee == before.tracee && after.pid == before.pid
  {
    LogAlternates(c, s, stops);
    assert (stops + [Trap(number, msg)])[..|stops|] == stops;
  }

  lemma PidMeans(v: u64)
    ensures -0x8000_0000 <= PidOf(v) < 0x8000_0000 && (v - PidOf(v)) % 0x1_0000_0000 == 0
    ensures PidOf(v) == v <==> v < 0x8000_0000
  {
    var low, q := v % 0x1_0000_0000, v / 0x1_0000_0000;
    assert v == 0x1_0000_0000 * q + low;
  }

  /** A stop is reported exactly when it is a trap of a call that has a name and
      is not futex, sched_yield, mprotect or madvise: then one plugin call is
      made, Before if the toggle stood at entry and an even number were reported
      since, or at exit and an odd number, else After; otherwise none. */
  lemma ReportExactly(c: Config, s: Trace, stops: seq<Stop>, stop: Stop)
    ensures var before, after := AfterStops(c, s, stops), AfterStops(c, s, stops + [stop]);
            var even := (|before.log| - |s.log|) % 2 == 0;
            if stop.Trap? && stop.number in c.named && stop.number !in {98, 124, 226, 233}
            then after.log == before.log + [if s.enter == even then Before(stop.number) else After(stop.number)]
            else after.log == before.log && after.enter == before.enter
  {
    LogAlternates(c, s, stops);
    assert (stops + [stop])[..|stops|] == stops;
  }

  /** After any run the connector's pid is the low 32 bits of the process
      followed, read as a signed number; debugger and connector trace the same
      process exactly when that process has a pid that fits pid_t. */
  lemma {:induction false} ConnectorAgrees(c: Config, s: Trace, stops: seq<Stop>)
    requires s.pid == PidOf(s.tracee)
    ensures var s' := AfterStops(c, s, stops);
            && s'.pid == PidOf(s'.tracee)
            && -0x8000_0000 <= s'.pid < 0x8000_0000 && (s'.tracee - s'.pid) % 0x1_0000_0000 == 0
            && (s'.pid == s'.tracee <==> s'.tracee < 0x8000_0000)
    decreases |stops|
  {
    if stops != [] { ConnectorAgrees(c, s, stops[..|stops| - 1]); }
    var s' := AfterStops(c, s, stops);
    assert s'.pid == PidOf(s'.tracee);
    PidMeans(s'.tracee);
  }
}
