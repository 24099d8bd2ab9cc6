/** Choosing a command from a line of input, and repeating the last one. */
module Commands {
  import opened Memory
  import opened Tokenizer

  datatype CmdType =
    | NONE | EXIT | HELP | NEXT | CONTIN | SHOW_REGS | MEM_MPROTECT | MEM_MMAP
    | SYSCALL_CONTIN | SET_BREAKPOINT | SET_HW_BREAKPOINT | READ_MEMORY | STRACE_MODE

  datatype Entry = Entry(names: seq<string>, cmd: CmdType, argsNum: nat)

  const TABLE: seq<Entry> := [
    Entry(["q", "quit", "exit"], EXIT, 0),
    Entry(["?", "help"], HELP, 0),
    Entry(["n", "next"], NEXT, 0),
    Entry(["c", "cont", "continue"], CONTIN, 0),
    Entry(["bp", "breakpoint"], SET_BREAKPOINT, 1),
    Entry(["hbp", "hbreakpoint"], SET_HW_BREAKPOINT, 2),
    Entry(["rm", "readm"], READ_MEMORY, 2),
    Entry(["re", "regs"], SHOW_REGS, 0),
    Entry(["mprot"], MEM_MPROTECT, 3),
    Entry(["mmap"], MEM_MMAP, 3)
  ]

  /** The order an unordered_map is walked in: any order of the table. */
  ghost predicate IsOrder(order: seq<Entry>, table: seq<Entry>) {
    multiset(order) == multiset(table)
  }

  lemma OrderMembers(order: seq<Entry>, table: seq<Entry>, e: Entry)
    requires IsOrder(order, table)
    ensures e in order <==> e in table
  {
    assert e in order <==> e in multiset(order);
    assert e in table <==> e in multiset(table);
  }

  /** substr(0, size) == name. */
  predicate Begins(line: string, name: string) {
    name <= line
  }

  predicate Matches(e: Entry, line: string) {
    exists i | 0 <= i < |e.names| :: Begins(line, e.names[i])
  }

  function Select(order: seq<Entry>, line: string): (r: Option<Entry>)
    ensures r.Some? ==> r.value in order && Matches(r.value, line)
    ensures r.None? ==> forall e | e in order :: !Matches(e, line)
  {
    if order == [] then None
    else if Matches(order[0], line) then Some(order[0])
    else Select(order[1..], line)
  }

  // ---- when the order of a table matters ----

  /** Two entries begin the line. */
  ghost predicate Ambiguous(table: seq<Entry>, line: string) {
    exists e, e' | e in table && e' in table :: e != e' && Matches(e, line) && Matches(e', line)
  }

  /** The table with entry e moved to the front. */
  lemma FrontOrder(table: seq<Entry>, e: Entry, line: string) returns (order: seq<Entry>)
    requires e in table && Matches(e, line)
    ensures IsOrder(order, table) && Select(order, line) == Some(e)
  {
    var k :| 0 <= k < |table| && table[k] == e;
    order := [e] + (table[..k] + table[k + 1..]);
    assert table == table[..k] + ([e] + table[k + 1..]);
  }

  lemma SelectUnambiguous(order: seq<Entry>, table: seq<Entry>, line: string)
    requires IsOrder(order, table) && !Ambiguous(table, line)
    ensures forall e | e in table && Matches(e, line) :: Select(order, line) == Some(e)
    ensures Select(order, line).Some? ==> Select(order, line).value in table
  {
    var r := Select(order, line);
    if r.Some? { OrderMembers(order, table, r.value); }
    forall e | e in table && Matches(e, line) ensures r == Some(e) {
      OrderMembers(order, table, e);
    }
  }

  /** A line selects the same entry in every order of a table exactly when no
      two entries match it. */
  lemma OrderIrrelevantExactly(table: seq<Entry>, line: string)
    ensures (forall o, o' | IsOrder(o, table) && IsOrder(o', table) :: Select(o, line) == Select(o', line))
            <==> !Ambiguous(table, line)
  {
    if Ambiguous(table, line) {
      var e, e' :| e in table && e' in table && e != e' && Matches(e, line) && Matches(e', line);
      var o := FrontOrder(table, e, line);
      var o' := FrontOrder(table, e', line);
    } else {
      forall o, o' | IsOrder(o, table) && IsOrder(o', table) ensures Select(o, line) == Select(o', line) {
        SelectUnambiguous(o, table, line);
        SelectUnambiguous(o', table, line);
      }
    }
  }

  // ---- this table ----

  /** What the beginning of a line says, when it does not begin with readm. */
  function Reading(line: string): CmdType {
    if "q" <= line || "exit" <= line then EXIT
    else if "?" <= line || "help" <= line then HELP
    else if "n" <= line then NEXT
    else if "c" <= line then CONTIN
    else if "bp" <= line || "breakpoint" <= line then SET_BREAKPOINT
    else if "hbp" <= line || "hbreakpoint" <= line then SET_HW_BREAKPOINT
    else if "rm" <= line then READ_MEMORY
    else if "re" <= line then SHOW_REGS
    else if "mprot" <= line then MEM_MPROTECT
    else if "mmap" <= line then MEM_MMAP
    else NONE
  }

  /** The first three characters tell all names apart but rm from readm. */
  lemma NameReads(line: string, name: string, e: Entry)
    requires name <= line && !("readm" <= line)
    requires
      || (e == TABLE[0] && (name == "q" || name == "quit" || name == "exit"))
      || (e == TABLE[1] && (name == "?" || name == "help"))
      || (e == TABLE[2] && (name == "n" || name == "next"))
      || (e == TABLE[3] && (name == "c" || name == "cont" || name == "continue"))
      || (e == TABLE[4] && (name == "bp" || name == "breakpoint"))
    ensures Reading(line) == e.cmd
  {
    assert line[0] == name[0];
    if |name| > 1 { assert line[1] == name[1]; }
  }

  lemma LaterNameReads(line: string, name: string, e: Entry)
    requires name <= line && !("readm" <= line)
    requires
      || (e == TABLE[5] && (name == "hbp" || name == "hbreakpoint"))
      || (e == TABLE[6] && (name == "rm" || name == "readm"))
      || (e == TABLE[7] && (name == "re" || name == "regs"))
      || (e == TABLE[8] && name == "mprot")
      || (e == TABLE[9] && name == "mmap")
    ensures Reading(line) == e.cmd
  {
    assert line[0] == name[0];
    if |name| > 1 { assert line[1] == name[1]; }
    if |name| > 2 { assert line[2] == name[2]; }
  }

  lemma MatchIsReading(e: Entry, line: string)
    requires e in TABLE && Matches(e, line) && !("readm" <= line)
    ensures Reading(line) == e.cmd
  {
    var i :| 0 <= i < |e.names| && Begins(line, e.names[i]);
    var k :| 0 <= k < |TABLE| && TABLE[k] == e;
    if k < 5 { NameReads(line, e.names[i], e); } else { LaterNameReads(line, e.names[i], e); }
  }

  lemma ReadmMatchesTwo(line: string)
    requires "readm" <= line
    ensures Matches(TABLE[6], line) && Matches(TABLE[7], line)
  {
    assert line[0] == 'r' && line[1] == 'e';
    assert Begins(line, TABLE[6].names[1]);
    assert Begins(line, TABLE[7].names[0]);
  }

  lemma SameCmdSameEntry(e: Entry, e': Entry)
    requires e in TABLE && e' in TABLE && e.cmd == e'.cmd
    ensures e == e'
  {
  }

  /** Exactly the lines beginning with readm match two commands. */
  lemma ReadmIsAmbiguous(line: string)
    ensures Ambiguous(TABLE, line) <==> "readm" <= line
  {
    if "readm" <= line {
      ReadmMatchesTwo(line);
      assert TABLE[6].cmd != TABLE[7].cmd;
    } else if Ambiguous(TABLE, line) {
      var e, e' :| e in TABLE && e' in TABLE && e != e' && Matches(e, line) && Matches(e', line);
      MatchIsReading(e, line);
      MatchIsReading(e', line);
      SameCmdSameEntry(e, e');
    }
  }

  /** A line selects the same command in whatever order the table is walked,
      exactly when it does not begin with readm. */
  lemma OrderMattersExactly(line: string)
    ensures (forall o, o' | IsOrder(o, TABLE) && IsOrder(o', TABLE) :: Select(o, line) == Select(o', line))
            <==> !("readm" <= line)
  {
    OrderIrrelevantExactly(TABLE, line);
    ReadmIsAmbiguous(line);
  }

  // ---- the input loop ----

  /** What the parser remembers between commands. */
  datatype Memo = Memo(lastCommand: CmdType, cmdArgs: seq<string>)

  function ArgsOf(line: string): seq<string> {
    var parts := Tokens(line, ' ');
    if parts == [] then [] else parts[1..]
  }

  /** Names are not empty and do not begin with a blank; entries are commands. */
  predicate GoodEntry(e: Entry) {
    e.cmd != NONE && forall i | 0 <= i < |e.names| :: e.names[i] != "" && e.names[i][0] != ' '
  }

  ghost predicate GoodTable(order: seq<Entry>) {
    forall e | e in order :: GoodEntry(e)
  }

  lemma TableEntry(e: Entry)
    requires e in TABLE
    ensures GoodEntry(e) && e.cmd != SYSCALL_CONTIN && e.cmd != STRACE_MODE
  {
  }

  lemma OrderIsGood(order: seq<Entry>)
    requires IsOrder(order, TABLE)
    ensures GoodTable(order) && forall e | e in order :: e.cmd != SYSCALL_CONTIN && e.cmd != STRACE_MODE
  {
    forall e | e in order ensures GoodEntry(e) && e.cmd != SYSCALL_CONTIN && e.cmd != STRACE_MODE {
      OrderMembers(order, TABLE, e);
      TableEntry(e);
    }
  }

  /** A line that selects a command has a first token, so skipping it is safe. */
  lemma SelectedHasToken(e: Entry, line: string)
    requires GoodEntry(e) && Matches(e, line)
    ensures Tokens(line, ' ') != []
  {
    var i :| 0 <= i < |e.names| && Begins(line, e.names[i]);
    assert line[0] == e.names[i][0];
  }

  lemma EmptySelectsNothing(order: seq<Entry>)
    requires GoodTable(order)
    ensures Select(order, "").None?
  {
    var r := Select(order, "");
    if r.Some? { SelectedHasToken(r.value, ""); }
  }

  /** What a line makes of the memory, and the command it delivers, if any. */
  function AfterLine(order: seq<Entry>, s: Memo, line: string): (r: (Memo, CmdType)) {
    if line == "" && s.lastCommand != NONE then (s, s.lastCommand)
    else
      match Select(order, line)
      case None => (s, NONE)
      case Some(e) => (Memo(e.cmd, if e.argsNum != 0 then ArgsOf(line) else s.cmdArgs), e.cmd)
  }

  // ---- what a line delivers, told from its text ----

  /** A command whose line's arguments are kept. */
  predicate TakesArgs(cmd: CmdType) {
    cmd in {SET_BREAKPOINT, SET_HW_BREAKPOINT, READ_MEMORY, MEM_MPROTECT, MEM_MMAP}
  }

  lemma TableArgs(e: Entry)
    requires e in TABLE
    ensures e.argsNum != 0 <==> TakesArgs(e.cmd)
  {
  }

  lemma EntryAt(k: nat, i: nat, line: string)
    requires k < |TABLE| && i < |TABLE[k].names| && TABLE[k].names[i] <= line
    ensures TABLE[k] in TABLE && Matches(TABLE[k], line)
  {
    assert Begins(line, TABLE[k].names[i]);
  }

  /** A line that says something matches an entry. */
  lemma ReadingMatches(line: string) returns (k: nat)
    requires Reading(line) != NONE
    ensures k < |TABLE| && Matches(TABLE[k], line)
  {
    var i: nat;
    if "q" <= line { k, i := 0, 0; }
    else if "exit" <= line { k, i := 0, 2; }
    else if "?" <= line { k, i := 1, 0; }
    else if "help" <= line { k, i := 1, 1; }
    else if "n" <= line { k, i := 2, 0; }
    else if "c" <= line { k, i := 3, 0; }
    else if "bp" <= line { k, i := 4, 0; }
    else if "breakpoint" <= line { k, i := 4, 1; }
    else if "hbp" <= line { k, i := 5, 0; }
    else if "hbreakpoint" <= line { k, i := 5, 1; }
    else if "rm" <= line { k, i := 6, 0; }
    else if "re" <= line { k, i := 7, 0; }
    else if "mprot" <= line { k, i := 8, 0; }
    else { k, i := 9, 0; }
    EntryAt(k, i, line);
  }

  /** The command is the one the line begins with; readm lines deliver one of
      two, and an empty line what was delivered last. */
  predicate Chosen(last: CmdType, line: string, cmd: CmdType) {
    if line == "" then cmd == last
    else if "readm" <= line then cmd == READ_MEMORY || cmd == SHOW_REGS
    else cmd == Reading(line)
  }

  /** What a line does: a chosen command is remembered, with the line's tokens
      after the first if it takes arguments. */
  predicate Served(s: Memo, line: string, s': Memo, cmd: CmdType) {
    && Chosen(s.lastCommand, line, cmd)
    && (line == "" || cmd == NONE ==> s' == s)
    && (line != "" && cmd != NONE ==>
          && s'.lastCommand == cmd
          && (if TakesArgs(cmd) then Tokens(line, ' ') != [] && s'.cmdArgs == Tokens(line, ' ')[1..]
              else s'.cmdArgs == s.cmdArgs))
  }

  lemma ReadmEntries(e: Entry, line: string)
    requires e in TABLE && Matches(e, line) && "readm" <= line
    ensures e.cmd == READ_MEMORY || e.cmd == SHOW_REGS
  {
    var i :| 0 <= i < |e.names| && Begins(line, e.names[i]);
    var k :| 0 <= k < |TABLE| && TABLE[k] == e;
    assert line[0] == 'r' && e.names[i][0] == line[0];
  }

  lemma MatchChosen(e: Entry, line: string)
    requires e in TABLE && Matches(e, line) && line != ""
    ensures Chosen(NONE, line, e.cmd)
  {
    if "readm" <= line { ReadmEntries(e, line); } else { MatchIsReading(e, line); }
  }

  lemma NoMatchChosen(line: string)
    requires line != "" && forall k | 0 <= k < |TABLE| :: !Matches(TABLE[k], line)
    ensures Chosen(NONE, line, NONE)
  {
    if "readm" <= line { ReadmMatchesTwo(line); }
    if Reading(line) != NONE { var k := ReadingMatches(line); }
  }

  lemma SelectChooses(order: seq<Entry>, line: string)
    requires IsOrder(order, TABLE) && line != ""
    ensures var r := Select(order, line);
            && (r.Some? ==> r.value in TABLE && Matches(r.value, line))
            && Chosen(NONE, line, if r.Some? then r.value.cmd else NONE)
  {
    var r := Select(order, line);
    if r.Some? {
      OrderMembers(order, TABLE, r.value);
      MatchChosen(r.value, line);
    } else {
      forall k | 0 <= k < |TABLE| ensures !Matches(TABLE[k], line) { OrderMembers(order, TABLE, TABLE[k]); }
      NoMatchChosen(line);
    }
  }

  /** What selecting says of a line that is not empty. */
  ghost predicate SelectsWell(r: Option<Entry>, line: string) {
    match r
    case None => Chosen(NONE, line, NONE)
    case Some(e) =>
      && e.cmd != NONE && Chosen(NONE, line, e.cmd)
      && (e.argsNum != 0 <==> TakesArgs(e.cmd)) && Tokens(line, ' ') != []
  }

  lemma OrderSelectsWell(order: seq<Entry>, line: string)
    requires IsOrder(order, TABLE) && line != ""
    ensures SelectsWell(Select(order, line), line)
  {
    SelectChooses(order, line);
    var r := Select(order, line);
    if r.Some? {
      TableEntry(r.value);
      TableArgs(r.value);
      SelectedHasToken(r.value, line);
    }
  }

  lemma WellServed(order: seq<Entry>, s: Memo, line: string)
    requires line != "" && SelectsWell(Select(order, line), line)
    ensures Served(s, line, AfterLine(order, s, line).0, AfterLine(order, s, line).1)
  {
  }

  lemma EmptyServed(order: seq<Entry>, s: Memo)
    requires GoodTable(order)
    ensures Served(s, "", AfterLine(order, s, "").0, AfterLine(order, s, "").1)
  {
    EmptySelectsNothing(order);
  }

  /** In whatever order the table is walked, a line is served as its text says. */
  lemma LineServed(order: seq<Entry>, s: Memo, line: string)
    requires IsOrder(order, TABLE)
    ensures Served(s, line, AfterLine(order, s, line).0, AfterLine(order, s, line).1)
  {
    if line == "" {
      OrderIsGood(order);
      EmptyServed(order, s);
    } else {
      OrderSelectsWell(order, line);
      WellServed(order, s, line);
    }
  }

  function AfterLines(order: seq<Entry>, s: Memo, lines: seq<string>): Memo
    decreases |lines|
  {
    if lines == [] then s
    else AfterLine(order, AfterLines(order, s, lines[..|lines| - 1]), lines[|lines| - 1]).0
  }

  /** Reading lines until one delivers a command: the memory then, the command,
      and how many lines it took. */
  function Deliver(order: seq<Entry>, s: Memo, lines: seq<string>): (r: (Memo, CmdType, nat))
    ensures r.2 <= |lines|
    decreases |lines|
  {
    if lines == [] then (s, NONE, 0)
    else
      var (s1, cmd) := AfterLine(order, s, lines[0]);
      if cmd != NONE then (s1, cmd, 1)
      else
        var (s2, c, n) := Deliver(order, s1, lines[1..]);
        (s2, c, n + 1)
  }

  /** A delivery seen n lines earlier. */
  function Later(n: nat, r: (Memo, CmdType, nat)): (Memo, CmdType, nat) {
    (r.0, r.1, n + r.2)
  }

  lemma DeliverOne(order: seq<Entry>, s: Memo, lines: seq<string>, n: nat, s1: Memo, cmd: CmdType)
    requires n < |lines| && (s1, cmd) == AfterLine(order, s, lines[n])
    ensures Later(n, Deliver(order, s, lines[n..])) ==
            if cmd != NONE then (s1, cmd, n + 1) else Later(n + 1, Deliver(order, s1, lines[n + 1..]))
  {
    assert lines[n..][1..] == lines[n + 1..];
  }

  lemma {:induction false} LinesFirst(order: seq<Entry>, s: Memo, line: string, rest: seq<string>)
    ensures AfterLines(order, s, [line] + rest) == AfterLines(order, AfterLine(order, s, line).0, rest)
    decreases |rest|
  {
    var all := [line] + rest;
    if rest == [] {
      assert all[..0] == [] && AfterLines(order, s, all[..0]) == s;
    } else {
      LinesFirst(order, s, line, rest[..|rest| - 1]);
      assert all[..|all| - 1] == [line] + rest[..|rest| - 1];
    }
  }

  /** Commands taken one after the other leave the memory the whole history does. */
  lemma {:induction false} DeliverFollowsHistory(order: seq<Entry>, s: Memo, lines: seq<string>)
    ensures var r := Deliver(order, s, lines);
            r.0 == AfterLines(order, s, lines[..r.2])
    decreases |lines|
  {
    if lines != [] {
      var (s1, cmd) := AfterLine(order, s, lines[0]);
      var rest := if cmd != NONE then [] else lines[1..][..Deliver(order, s1, lines[1..]).2];
      LinesFirst(order, s, lines[0], rest);
      assert lines[..Deliver(order, s, lines).2] == [lines[0]] + rest;
      if cmd == NONE { DeliverFollowsHistory(order, s1, lines[1..]); }
    }
  }

  /** The line delivers a command, given the last one delivered. */
  predicate Delivers(last: CmdType, line: string) {
    if line == "" then last != NONE else Reading(line) != NONE
  }

  /** The first line that does, or |lines|. */
  function FirstDelivering(last: CmdType, lines: seq<string>): (n: nat)
    ensures n <= |lines| && (n < |lines| ==> Delivers(last, lines[n]))
    ensures forall i | 0 <= i < n :: !Delivers(last, lines[i])
    decreases |lines|
  {
    if lines == [] || Delivers(last, lines[0]) then 0 else 1 + FirstDelivering(last, lines[1..])
  }

  lemma ChosenDelivers(last: CmdType, line: string, cmd: CmdType)
    requires Chosen(last, line, cmd)
    ensures cmd != NONE <==> Delivers(last, line)
  {
    if "readm" <= line { assert line[0] == 'r' && line[1] == 'e'; }
  }

  /** Exactly the lines up to the first that delivers are taken; that one is
      served and those before it do nothing. */
  predicate WellDelivered(s: Memo, lines: seq<string>, r: (Memo, CmdType, nat)) {
    var n := FirstDelivering(s.lastCommand, lines);
    if n == |lines| then r == (s, NONE, n)
    else r.2 == n + 1 && r.1 != NONE && Served(s, lines[n], r.0, r.1)
  }

  lemma NextDelivers(s: Memo, lines: seq<string>, s1: Memo, cmd: CmdType, rest: (Memo, CmdType, nat))
    requires lines != [] && Served(s, lines[0], s1, cmd)
    requires cmd == NONE ==> WellDelivered(s1, lines[1..], rest)
    ensures WellDelivered(s, lines, if cmd != NONE then (s1, cmd, 1) else (rest.0, rest.1, rest.2 + 1))
  {
    ChosenDelivers(s.lastCommand, lines[0], cmd);
  }

  lemma {:induction false} DeliverExactly(order: seq<Entry>, s: Memo, lines: seq<string>)
    requires IsOrder(order, TABLE)
    ensures WellDelivered(s, lines, Deliver(order, s, lines))
    decreases |lines|
  {
    if lines != [] {
      var (s1, cmd) := AfterLine(order, s, lines[0]);
      LineServed(order, s, lines[0]);
      if cmd == NONE { DeliverExactly(order, s1, lines[1..]); }
      NextDelivers(s, lines, s1, cmd, Deliver(order, s1, lines[1..]));
    }
  }

  class CmdParser {
    var lastCommand: CmdType
    var cmdArgs: seq<string>

    constructor ()
      ensures State() == Memo(NONE, [])
    {
      lastCommand, cmdArgs := NONE, [];
    }

    function State(): Memo
      reads this
    {
      Memo(lastCommand, cmdArgs)
    }

    method ParseArgs(cmdStr: string) returns (ok: bool)
      requires Tokens(cmdStr, ' ') != []
      modifies this`cmdArgs
      ensures ok && cmdArgs == ArgsOf(cmdStr)
    {
      cmdArgs := [];
      var parts, runs := SplitString(cmdStr, ' ');
      cmdArgs := parts[1..] + cmdArgs;
      ok := true;
    }

    static method HasMatch(cs: Entry, cmdStr: string) returns (hasMatch: bool)
      ensures hasMatch <==> Matches(cs, cmdStr)
    {
      hasMatch := false;
      for i := 0 to |cs.names|
        invariant hasMatch <==> exists j | 0 <= j < i :: Begins(cmdStr, cs.names[j])
      {
        hasMatch := hasMatch || Begins(cmdStr, cs.names[i]);
      }
    }

    /** The loop over the table: the first entry that matches. */
    static method FindEntry(order: seq<Entry>, cmdStr: string) returns (r: Option<Entry>)
      ensures r == Select(order, cmdStr)
    {
      assert order[0..] == order;
      for k := 0 to |order|
        invariant Select(order, cmdStr) == Select(order[k..], cmdStr)
      {
        var hasMatch := HasMatch(order[k], cmdStr);
        assert order[k..][1..] == order[k + 1..];
        if hasMatch {
          return Some(order[k]);
        }
      }
      r := None;
    }

    /** One line of input. */
    method TryLine(order: seq<Entry>, cmdStr: string) returns (cmd: CmdType)
      requires GoodTable(order)
      modifies this
      ensures (State(), cmd) == AfterLine(order, old(State()), cmdStr)
    {
      if cmdStr == "" && lastCommand != NONE {
        return lastCommand;
      }
      var found := FindEntry(order, cmdStr);
      if found.None? {
        return NONE;
      }
      var cs := found.value;
      if cs.argsNum != 0 {
        SelectedHasToken(cs, cmdStr);
        var ok := ParseArgs(cmdStr);
      }
      lastCommand := cs.cmd;
      cmd := cs.cmd;
    }

    /** Reads lines until one delivers a command, or no line is left. */
    method GetCmd(order: seq<Entry>, lines: seq<string>) returns (cmd: CmdType, used: nat)
      requires GoodTable(order)
      modifies this
      ensures (State(), cmd, used) == Deliver(order, old(State()), lines)
    {
      used, cmd := 0, NONE;
      ghost var s0 := State();
      ghost var s := s0;
      assert lines[0..] == lines;
      while used < |lines|
        invariant used <= |lines| && cmd == NONE && s == State()
        invariant Deliver(order, s0, lines) == Later(used, Deliver(order, s, lines[used..]))
      {
        cmd := TryLine(order, lines[used]);
        DeliverOne(order, s, lines, used, State(), cmd);
        s := State();
        used := used + 1;
        if cmd != NONE {
          return;
        }
      }
    }
  }

  // ---- what an empty line repeats ----

  /** The last line that selected a command itself, or -1. */
  function LastSelecting(order: seq<Entry>, lines: seq<string>): (j: int)
    ensures -1 <= j < |lines|
    ensures j >= 0 ==> Select(order, lines[j]).Some?
    ensures forall i | j < i < |lines| :: Select(order, lines[i]).None?
    decreases |lines|
  {
    if lines == [] then -1
    else if Select(order, lines[|lines| - 1]).Some? then |lines| - 1
    else LastSelecting(order, lines[..|lines| - 1])
  }

  /** Over every input history, an empty line delivers the command of the last
      line that selected one, and if that command takes arguments, with exactly
      the arguments on that line, whatever came between. */
  lemma {:induction false} EmptyLineRepeats(order: seq<Entry>, lines: seq<string>)
    requires GoodTable(order)
    ensures var s := AfterLines(order, Memo(NONE, []), lines);
            var j := LastSelecting(order, lines);
            && AfterLine(order, s, "") == (s, if j == -1 then NONE else Select(order, lines[j]).value.cmd)
            && (j >= 0 && Select(order, lines[j]).value.argsNum != 0 ==> s.cmdArgs == ArgsOf(lines[j]))
            && s.lastCommand == (if j == -1 then NONE else Select(order, lines[j]).value.cmd)
    decreases |lines|
  {
    EmptySelectsNothing(order);
    if lines != [] {
      EmptyLineRepeats(order, lines[..|lines| - 1]);
    }
  }

  /** Only commands of the table are ever delivered. */
  lemma OnlyTableCommands(order: seq<Entry>, lines: seq<string>, line: string)
    requires GoodTable(order)
    ensures var cmd := AfterLine(order, AfterLines(order, Memo(NONE, []), lines), line).1;
            cmd == NONE || exists e :: e in order && e.cmd == cmd
  {
    EmptyLineRepeats(order, lines);
    var j := LastSelecting(order, lines);
    assert j >= 0 ==> Select(order, lines[j]).value in order;
    assert Select(order, line).Some? ==> Select(order, line).value in order;
  }

  /** So no input ever reaches the handlers of syscall and strace. */
  lemma SyscallsUnreachable(order: seq<Entry>, lines: seq<string>, line: string)
    requires IsOrder(order, TABLE)
    ensures var cmd := AfterLine(order, AfterLines(order, Memo(NONE, []), lines), line).1;
            cmd != SYSCALL_CONTIN && cmd != STRACE_MODE
  {
    OrderIsGood(order);
    OnlyTableCommands(order, lines, line);
  }
}
