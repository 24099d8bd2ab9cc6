/** Reading /proc/pid/maps into a linked list, walking it and freeing it. */
module MapsList {
  import opened Memory
  import opened MapsLine

  const LINE_MAX: nat := 4196 // PATH_MAX + 100

  // ---- while (!feof) fgets ----

  /** How many characters fgets takes: up to and with a newline, a full buffer,
      or the rest of the file. */
  function LineLength(file: string, from: nat): (n: nat)
    requires from <= |file|
    ensures from + n <= |file| && n < LINE_MAX
    ensures from < |file| ==> n > 0
  {
    var nl := NewlineAt(file, from);
    var n := if nl < |file| then nl + 1 - from else |file| - from;
    if n < LINE_MAX then n else LINE_MAX - 1
  }

  function NewlineAt(file: string, from: nat): (n: nat)
    requires from <= |file|
    ensures from <= n <= |file|
    decreases |file| - from
  {
    if from == |file| || file[from] == '\n' then from else NewlineAt(file, from + 1)
  }

  /** End of file is noticed by running into it: not by a line that a newline or
      a full buffer ends. */
  function HitsEof(file: string, from: nat): bool
    requires from <= |file|
  {
    var n := LineLength(file, from);
    from + n == |file| && n < LINE_MAX - 1 && (n == 0 || file[|file| - 1] != '\n')
  }

  /** What the buffer holds each time the loop body uses it. */
  function Buffers(file: string, from: nat, buf: string): (bs: seq<string>)
    requires from <= |file|
    ensures |bs| > 0
    decreases |file| - from
  {
    var n := LineLength(file, from);
    var b := if n == 0 then buf else file[from..from + n];
    if HitsEof(file, from) then [b]
    else [b] + Buffers(file, from + n, b)
  }

  function Flatten(lines: seq<string>): string {
    if lines == [] then "" else lines[0] + Flatten(lines[1..])
  }

  lemma BuffersNext(file: string, from: nat, buf: string)
    requires from <= |file| && LineLength(file, from) > 0 && !HitsEof(file, from)
    ensures var n := LineLength(file, from);
            Buffers(file, from, buf) == [file[from..from + n]] + Buffers(file, from + n, file[from..from + n])
  {
  }

  function LastOr(lines: seq<string>, buf: string): string {
    if lines == [] then buf else lines[|lines| - 1]
  }

  // ---- which files are seen whole ----

  /** What fgets takes, one after the other, up to the end of the file. */
  function Chunks(file: string, from: nat): (cs: seq<string>)
    requires from <= |file|
    decreases |file| - from
  {
    var n := LineLength(file, from);
    if n == 0 then [] else [file[from..from + n]] + Chunks(file, from + n)
  }

  /** Where the text after the last newline starts. */
  function TailStart(file: string, from: nat): (t: nat)
    requires from <= |file|
    ensures from <= t <= |file|
    decreases |file| - from
  {
    var nl := NewlineAt(file, from);
    if nl == |file| then from else TailStart(file, nl + 1)
  }

  lemma {:induction false} NewlineMeans(file: string, from: nat)
    requires from <= |file|
    ensures var nl := NewlineAt(file, from);
            (forall i | from <= i < nl :: file[i] != '\n') && (nl < |file| ==> file[nl] == '\n')
    decreases |file| - from
  {
    if from < |file| && file[from] != '\n' { NewlineMeans(file, from + 1); }
  }

  lemma {:induction false} TailMeans(file: string, from: nat)
    requires from <= |file|
    ensures var t := TailStart(file, from);
            (forall i | t <= i < |file| :: file[i] != '\n') && (t == from || file[t - 1] == '\n')
    decreases |file| - from
  {
    var nl := NewlineAt(file, from);
    NewlineMeans(file, from);
    if nl < |file| { TailMeans(file, nl + 1); }
  }

  lemma {:induction false} NewlineAhead(file: string, from: nat, next: nat)
    requires from <= next <= |file| && forall i | from <= i < next :: file[i] != '\n'
    ensures NewlineAt(file, next) == NewlineAt(file, from)
    decreases next - from
  {
    if from < next { NewlineAhead(file, from + 1, next); }
  }

  /** The text from one place to the next is what fgets takes at once: up to
      and with a newline, or 4195 characters, or the rest of the file. */
  predicate IsPiece(file: string, from: nat, next: nat) {
    && from < next <= |file| && next - from <= 4195
    && (forall i | from <= i < next - 1 :: file[i] != '\n')
    && (next - from == 4195 || next == |file| || file[next - 1] == '\n')
  }

  /** These are the pieces from there to the end of the file. */
  ghost predicate CutInto(file: string, from: nat, cs: seq<string>)
    decreases |cs|
  {
    if cs == [] then from == |file|
    else
      var next := from + |cs[0]|;
      IsPiece(file, from, next) && cs[0] == file[from..next] && CutInto(file, next, cs[1..])
  }

  lemma {:induction false} ChunksCut(file: string, from: nat)
    requires from <= |file|
    ensures CutInto(file, from, Chunks(file, from))
    decreases |file| - from
  {
    var n := LineLength(file, from);
    NewlineMeans(file, from);
    if n > 0 {
      ChunksCut(file, from + n);
      assert IsPiece(file, from, from + n);
    }
  }

  predicate FillsBuffers(n: nat) { n % 4195 == 0 }

  /** The text after the last newline, perhaps empty, is made of full buffers. */
  predicate TailFills(file: string, from: nat)
    requires from <= |file|
  {
    FillsBuffers(|file| - TailStart(file, from))
  }

  lemma OneLess(n: nat)
    requires n >= LINE_MAX - 1
    ensures FillsBuffers(n) == FillsBuffers(n - (LINE_MAX - 1))
  {
  }

  /** Taking one piece leaves the text after the last newline, or takes a full
      buffer of it. */
  lemma TailAfter(file: string, from: nat)
    requires from < |file| && !HitsEof(file, from)
    ensures var next := from + LineLength(file, from);
            TailFills(file, from) == TailFills(file, next)
  {
    var nl, n := NewlineAt(file, from), LineLength(file, from);
    NewlineMeans(file, from);
    if nl == |file| || n < nl + 1 - from {
      NewlineAhead(file, from, from + n);
      if nl == |file| { OneLess(|file| - from); }
    }
  }

  /** The loop that runs into the end of the file has a last piece, one that
      neither a newline nor a full buffer ends. */
  lemma TailAtEof(file: string, from: nat)
    requires from <= |file| && HitsEof(file, from)
    ensures TailFills(file, from) <==> from == |file|
  {
    NewlineMeans(file, from);
  }

  lemma {:induction false} ChunksJoin(file: string, from: nat)
    requires from <= |file|
    ensures Flatten(Chunks(file, from)) == file[from..]
    decreases |file| - from
  {
    var n := LineLength(file, from);
    if n > 0 {
      ChunksJoin(file, from + n);
      assert file[from..] == file[from..from + n] + file[from + n..];
    }
  }

  lemma PiecesAtEof(file: string, from: nat, buf: string)
    requires from <= |file| && HitsEof(file, from)
    ensures Chunks(file, from) == if from == |file| then [] else [file[from..]]
    ensures Buffers(file, from, buf) == if from == |file| then [buf] else [file[from..]]
  {
    var n := LineLength(file, from);
    assert file[from..from + n] == file[from..];
    assert n > 0 ==> Chunks(file, from + n) == [];
  }

  lemma ChunksNext(file: string, from: nat)
    requires from <= |file| && LineLength(file, from) > 0
    ensures var n := LineLength(file, from);
            Chunks(file, from) == [file[from..from + n]] + Chunks(file, from + n)
  {
  }

  /** The pieces, and the last of them again if told so. */
  function Seen(cs: seq<string>, again: bool, buf: string): seq<string> {
    if again then cs + [LastOr(cs, buf)] else cs
  }

  lemma SeenAtEof(file: string, from: nat, buf: string)
    requires from <= |file| && HitsEof(file, from)
    ensures Buffers(file, from, buf) == Seen(Chunks(file, from), TailFills(file, from), buf)
  {
    TailAtEof(file, from);
    PiecesAtEof(file, from, buf);
  }

  lemma SeenFirst(bs: seq<string>, more: seq<string>, cs: seq<string>, rest: seq<string>, b: string, again: bool,
                  buf: string)
    requires bs == [b] + more && cs == [b] + rest && more == Seen(rest, again, b)
    ensures bs == Seen(cs, again, buf)
  {
    if again { assert LastOr(cs, buf) == LastOr(rest, b); }
  }

  /** For every file: the loop body sees what fgets takes, once and in order,
      and then the last of it again (or the buffer as it was) exactly when the
      text after the last newline fills whole buffers, as the empty text does
      of a file that is empty or ends in a newline. */
  lemma {:induction false} BuffersOfFile(file: string, from: nat, buf: string)
    requires from <= |file|
    ensures Buffers(file, from, buf) == Seen(Chunks(file, from), TailFills(file, from), buf)
    decreases |file| - from
  {
    if HitsEof(file, from) {
      SeenAtEof(file, from, buf);
    } else {
      var next := from + LineLength(file, from);
      var b := file[from..next];
      BuffersOfFile(file, next, b);
      TailAfter(file, from);
      BuffersNext(file, from, buf);
      ChunksNext(file, from);
      SeenFirst(Buffers(file, from, buf), Buffers(file, next, b), Chunks(file, from), Chunks(file, next), b,
                TailFills(file, from), buf);
    }
  }

  lemma {:induction false} FlattenMore(cs: seq<string>, b: string)
    ensures Flatten(cs + [b]) == Flatten(cs) + b
    decreases |cs|
  {
    if cs == [] {
      assert [b][1..] == [];
    } else {
      FlattenMore(cs[1..], b);
      assert (cs + [b])[1..] == cs[1..] + [b];
    }
  }

  lemma {:induction false} ChunksNotEmpty(file: string, from: nat, i: nat)
    requires from <= |file| && i < |Chunks(file, from)|
    ensures Chunks(file, from)[i] != ""
    decreases i
  {
    if i > 0 { ChunksNotEmpty(file, from + LineLength(file, from), i - 1); }
  }

  /** The pieces seen join to the file, none of it twice and nothing added,
      exactly when the file goes on after its last newline (or has none) with
      text that does not fill whole buffers. */
  lemma EachPieceOnceExactly(file: string, garbage: string)
    requires file != "" || garbage != ""
    ensures Flatten(Buffers(file, 0, garbage)) == file <==> !TailFills(file, 0)
    ensures Buffers(file, 0, garbage) == Chunks(file, 0) <==> !TailFills(file, 0)
  {
    var cs := Chunks(file, 0);
    BuffersOfFile(file, 0, garbage);
    ChunksJoin(file, 0);
    FlattenMore(cs, LastOr(cs, garbage));
    assert file[0..] == file;
    if cs != [] { ChunksNotEmpty(file, 0, |cs| - 1); }
  }

  // ---- files made of lines ----

  predicate NoNewline(s: string) { forall i | 0 <= i < |s| :: s[i] != '\n' }

  /** Ends with its only newline and fits the buffer. */
  predicate WholeLine(l: string) {
    0 < |l| < 4196 && l[|l| - 1] == '\n' && forall i | 0 <= i < |l| - 1 :: l[i] != '\n'
  }

  predicate AllWhole(lines: seq<string>) {
    forall i | 0 <= i < |lines| :: WholeLine(lines[i])
  }

  function Text(lines: seq<string>, last: string): string {
    Flatten(lines) + last
  }

  lemma WholeFirst(lines: seq<string>, last: string)
    requires AllWhole(lines) && lines != []
    ensures WholeLine(lines[0]) && AllWhole(lines[1..])
    ensures Text(lines, last) == lines[0] + Text(lines[1..], last)
  {
  }

  lemma {:induction false} NewlineIs(file: string, from: nat, n: nat)
    requires from <= n <= |file| && (n < |file| ==> file[n] == '\n') && forall i | from <= i < n :: file[i] != '\n'
    ensures NewlineAt(file, from) == n
    decreases n - from
  {
    if from < n { NewlineIs(file, from + 1, n); }
  }

  lemma LineTaken(file: string, from: nat, l: string, rest: string)
    requires from <= |file| && file[from..] == l + rest && WholeLine(l)
    ensures LineLength(file, from) == |l| && file[from..from + |l|] == l && file[from + |l|..] == rest
    ensures TailStart(file, from) == TailStart(file, from + |l|)
  {
    Cut(file, from, l, rest);
    forall i | from <= i < from + |l| - 1 ensures file[i] != '\n' {
      assert file[from + (i - from)] == l[i - from];
    }
    assert file[from + (|l| - 1)] == '\n';
    NewlineIs(file, from, from + |l| - 1);
  }

  lemma NoneTaken(file: string, from: nat)
    requires from <= |file| && NoNewline(file[from..])
    ensures NewlineAt(file, from) == |file| && TailStart(file, from) == from
  {
    forall i | from <= i < |file| ensures file[i] != '\n' { assert file[from..][i - from] == file[i]; }
    NewlineIs(file, from, |file|);
  }

  lemma LastTaken(file: string, from: nat)
    requires from < |file| && NoNewline(file[from..]) && |file| - from < LINE_MAX
    ensures Chunks(file, from) == [file[from..]]
  {
    NoneTaken(file, from);
    ChunksNext(file, from);
    assert Chunks(file, |file|) == [] && file[from..|file|] == file[from..];
  }

  lemma TailTaken(file: string, from: nat, last: string)
    requires from <= |file| && file[from..] == last && NoNewline(last) && |last| < LINE_MAX
    ensures Chunks(file, from) == WithLast([], last) && TailStart(file, from) == |file| - |last|
  {
    NoneTaken(file, from);
    if last != "" { LastTaken(file, from); }
  }

  /** fgets takes l next, and that is not what the file ends with. */
  ghost predicate Takes(file: string, from: nat, l: string, next: nat) {
    && from <= |file| && next <= |file|
    && Chunks(file, from) == [l] + Chunks(file, next) && TailStart(file, from) == TailStart(file, next)
  }

  lemma FirstTaken(file: string, from: nat, l: string, rest: string)
    requires from <= |file| && file[from..] == l + rest && WholeLine(l)
    ensures Takes(file, from, l, from + |l|) && file[from + |l|..] == rest
  {
    LineTaken(file, from, l, rest);
    ChunksNext(file, from);
  }

  lemma OneTaken(file: string, from: nat, lines: seq<string>, last: string) returns (next: nat)
    requires from <= |file| && file[from..] == Text(lines, last) && AllWhole(lines) && lines != []
    ensures Takes(file, from, lines[0], next) && file[next..] == Text(lines[1..], last) && AllWhole(lines[1..])
  {
    WholeFirst(lines, last);
    FirstTaken(file, from, lines[0], Text(lines[1..], last));
    next := from + |lines[0]|;
  }

  function WithLast(lines: seq<string>, last: string): seq<string> {
    lines + if last == "" then [] else [last]
  }

  lemma WithLastFirst(lines: seq<string>, last: string)
    requires lines != []
    ensures WithLast(lines, last) == [lines[0]] + WithLast(lines[1..], last)
  {
  }

  /** fgets takes the lines, and last an unfinished one. */
  lemma {:induction false} ChunksOfLines(file: string, from: nat, lines: seq<string>, last: string)
    requires from <= |file| && file[from..] == Text(lines, last)
    requires AllWhole(lines) && NoNewline(last) && |last| < LINE_MAX
    ensures Chunks(file, from) == WithLast(lines, last)
    ensures TailStart(file, from) == |file| - |last|
    decreases |lines|
  {
    if lines == [] {
      assert Text([], last) == last;
      TailTaken(file, from, last);
    } else {
      var next := OneTaken(file, from, lines, last);
      ChunksOfLines(file, next, lines[1..], last);
      WithLastFirst(lines, last);
    }
  }

  /** A file of lines that fit the buffer, the last perhaps unfinished: after a
      finished last line (also when there is none) the loop body runs once more
      on the same buffer; an unfinished one it sees once, unless that fills the
      buffer. */
  lemma LastLineTwice(file: string, lines: seq<string>, last: string, garbage: string)
    requires file == Text(lines, last) && AllWhole(lines) && NoNewline(last) && |last| < 4196
    ensures Buffers(file, 0, garbage) ==
            if last == "" then lines + [LastOr(lines, garbage)]
            else if |last| < 4195 then lines + [last]
            else lines + [last, last]
  {
    assert file[0..] == file;
    ChunksOfLines(file, 0, lines, last);
    BuffersOfFile(file, 0, garbage);
  }

  // ---- the list ----

  class Node {
    var data: seq<string>
    var next: Node?

    constructor (data: seq<string>)
      ensures this.data == data && next == null
    {
      this.data, next := data, null;
    }
  }

  /** Node i points to the one after it, the last to none. */
  ghost predicate LinkAt(nodes: seq<Node>, i: int)
    reads nodes
  {
    0 <= i < |nodes| && nodes[i].next == if i + 1 < |nodes| then nodes[i + 1] else null
  }

  ghost predicate Linked(nodes: seq<Node>)
    reads nodes
  {
    && (forall i, j | 0 <= i < j < |nodes| :: nodes[i] != nodes[j])
    && (forall i | 0 <= i < |nodes| :: LinkAt(nodes, i))
  }

  class Iterator {
    var head: Node?
    var current: Node?

    constructor (head: Node?)
      ensures this.head == head && current == head
    {
      this.head, current := head, head;
    }

    /** Standing before node k. */
    ghost predicate At(nodes: seq<Node>, k: nat)
      reads this
    {
      k <= |nodes| && current == if k < |nodes| then nodes[k] else null
    }

    /** pmparser_next: the nodes one by one, then null for ever; on a node
        linked to itself that node for ever. */
    method Next(ghost nodes: seq<Node>, ghost k: nat) returns (r: Node?)
      requires At(nodes, k)
      requires Linked(nodes) || (|nodes| == 1 && nodes[0].next == nodes[0])
      modifies this`current
      ensures r == if k < |nodes| then nodes[k] else null
      ensures Linked(nodes) ==> At(nodes, if k < |nodes| then k + 1 else k)
      ensures k < |nodes| && nodes[k].next == nodes[k] ==> At(nodes, k)
    {
      if current == null {
        return null;
      }
      assert Linked(nodes) ==> LinkAt(nodes, k);
      var pCurrent := current;
      current := current.next;
      return pCurrent;
    }
  }

  /** A caller that takes nodes until there are none gets exactly the list. */
  method Traverse(it: Iterator, ghost nodes: seq<Node>) returns (taken: seq<Node>)
    requires it.At(nodes, 0) && Linked(nodes)
    modifies it`current
    ensures taken == nodes && it.current == null
  {
    taken := [];
    var r := it.Next(nodes, 0);
    while r != null
      invariant |taken| <= |nodes| && taken == nodes[..|taken|]
      invariant r == if |taken| < |nodes| then nodes[|taken|] else null
      invariant it.At(nodes, if r != null then |taken| + 1 else |taken|)
      decreases |nodes| - |taken|
    {
      taken := taken + [r];
      r := it.Next(nodes, |taken|);
    }
  }

  /** What the building loop keeps: a list, except that a first node alone is
      linked to itself. */
  ghost predicate Chain(nodes: seq<Node>)
    reads nodes
  {
    if |nodes| == 1 then nodes[0].next == nodes[0] else Linked(nodes)
  }

  /** The nodes hold the first records. */
  ghost predicate DataIs(nodes: seq<Node>, records: seq<seq<string>>)
    reads nodes
  {
    |nodes| <= |records| && forall k | 0 <= k < |nodes| :: nodes[k].data == records[k]
  }

  /** A new node, attached. */
  method Attach(ind: nat, listMaps: Node?, currentNode: Node?, data: seq<string>, ghost nodes: seq<Node>,
                ghost records: seq<seq<string>>)
    returns (head: Node, tmp: Node)
    requires ind == |nodes| && Chain(nodes) && DataIs(nodes, records)
    requires ind < |records| && data == records[ind]
    requires if nodes == [] then currentNode == null
             else listMaps == nodes[0] && currentNode == nodes[|nodes| - 1]
    modifies if currentNode == null then {} else {currentNode}
    ensures fresh(tmp) && Chain(nodes + [tmp]) && DataIs(nodes + [tmp], records)
    ensures head == (nodes + [tmp])[0]
  {
    tmp := new Node(data);
    tmp.next := null;
    var attachTo: Node?;
    if ind == 0 {
      head := tmp;
      head.next := null;
      attachTo := head;
    } else {
      head := listMaps;
      attachTo := currentNode;
    }
    attachTo.next := tmp;
    ghost var more := nodes + [tmp];
    if ind > 0 {
      forall i | 0 <= i < |more| ensures LinkAt(more, i) {
        if ind > 1 && i < ind - 1 { assert old(LinkAt(nodes, i)); }
      }
    }
  }

  /** A line that splits into these fields, all of which fit where they are put:
      into the splitter's buffers and then into the record. */
  ghost predicate IsRecord(buf: string, f: seq<string>) {
    && |f| == 2 + COLUMNS && Split(buf, |f| - 2) == Some(f)
    && |f[0]| < 20 && |f[1]| < 20 && |f[2]| < 5 && |f[3]| < 20 && |f[4]| < 10 && |f[5]| < 30 && |f[6]| < 600
    && forall i | 0 <= i < |f| :: '\0' !in f[i]
  }

  ghost predicate AreRecords(bs: seq<string>, records: seq<seq<string>>) {
    |bs| == |records| && forall k | 0 <= k < |bs| :: IsRecord(bs[k], records[k])
  }

  /** The arrays that every line is split into. */
  class LineBuffers {
    const addr1: array<char>
    const addr2: array<char>
    const perm: array<char>
    const offset: array<char>
    const dev: array<char>
    const inode: array<char>
    const pathname: array<char>

    constructor ()
      ensures Valid() && fresh(Arrays())
    {
      addr1, addr2, perm, offset := new char[20], new char[20], new char[8], new char[20];
      dev, inode, pathname := new char[10], new char[30], new char[4096];
    }

    ghost function Arrays(): set<array<char>> {
      {addr1, addr2, perm, offset, dev, inode, pathname}
    }

    ghost predicate Valid() {
      && addr1 !in {addr2, perm, offset, dev, inode, pathname} && addr2 !in {perm, offset, dev, inode, pathname}
      && perm !in {offset, dev, inode, pathname} && offset !in {dev, inode, pathname}
      && dev !in {inode, pathname} && inode != pathname
      && addr1.Length == addr2.Length == offset.Length == 20 && perm.Length == 8 && dev.Length == 10
      && inode.Length == 30 && pathname.Length == 4096
    }
  }

  /** The C string in an array. */
  method ReadString(src: array<char>, ghost f: string) returns (s: string)
    requires HoldsString(src, f) && '\0' !in f
    ensures s == f
  {
    assert forall i | 0 <= i < |f| :: src[i] == src[..|f|][i] == f[i];
    var i := 0;
    s := "";
    while src[i] != '\0'
      invariant i <= |f| && s == f[..i] && HoldsString(src, f)
      decreases |f| - i
    {
      s := s + [src[i]];
      i := i + 1;
    }
  }

  /** Splits the line into the arrays and the record from there. */
  method FillNode(buf: string, b: LineBuffers, ghost f: seq<string>) returns (data: seq<string>)
    requires b.Valid() && IsRecord(buf, f)
    modifies b.Arrays()
    ensures data == f
  {
    SplitLine(buf, b.addr1, b.addr2, b.perm, b.offset, b.dev, b.inode, b.pathname, f);
    var addrStart := ReadString(b.addr1, f[0]);
    var addrEnd := ReadString(b.addr2, f[1]);
    var perm := ReadString(b.perm, f[2]);
    var offset := ReadString(b.offset, f[3]);
    var dev := ReadString(b.dev, f[4]);
    var inode := ReadString(b.inode, f[5]);
    var pathname := ReadString(b.pathname, f[6]);
    data := [addrStart, addrEnd, perm, offset, dev, inode, pathname];
  }

  /** Of the buffers bs, those from k on are still to come. */
  ghost predicate Ahead(bs: seq<string>, k: nat, file: string, pos: nat, buf: string, eof: bool) {
    pos <= |file| && k <= |bs| && bs[k..] == if eof then [] else Buffers(file, pos, buf)
  }

  method Fgets(file: string, pos: nat, buf: string, ghost bs: seq<string>, ghost k: nat)
    returns (pos': nat, buf': string, eof: bool)
    requires Ahead(bs, k, file, pos, buf, false)
    ensures k < |bs| && buf' == bs[k] && Ahead(bs, k + 1, file, pos', buf', eof) && (!eof ==> pos < pos')
  {
    assert bs[k..][0] == bs[k] && bs[k..][1..] == bs[k + 1..];
    var n := LineLength(file, pos);
    eof := HitsEof(file, pos);
    pos' := pos + n;
    buf' := if n == 0 then buf else file[pos..pos + n];
  }

  /** What the loop knows of the list so far. */
  ghost predicate Building(nodes: seq<Node>, records: seq<seq<string>>, listMaps: Node?, currentNode: Node?)
    reads nodes
  {
    && Chain(nodes) && DataIs(nodes, records)
    && if nodes == [] then currentNode == null
       else listMaps == nodes[0] && currentNode == nodes[|nodes| - 1]
  }

  /** The loop body: a line is read, split and attached. */
  method AddLine(file: string, pos: nat, buf: string, b: LineBuffers, ind: nat, listMaps: Node?, currentNode: Node?,
                 ghost nodes: seq<Node>, ghost bs: seq<string>, ghost records: seq<seq<string>>)
    returns (pos': nat, buf': string, eof: bool, head: Node, tmp: Node)
    requires Ahead(bs, ind, file, pos, buf, false) && AreRecords(bs, records) && b.Valid()
    requires ind == |nodes| && Building(nodes, records, listMaps, currentNode)
    modifies b.Arrays(), if currentNode == null then {} else {currentNode}
    ensures Ahead(bs, ind + 1, file, pos', buf', eof) && (!eof ==> pos < pos')
    ensures fresh(tmp) && Building(nodes + [tmp], records, head, tmp)
  {
    pos', buf', eof := Fgets(file, pos, buf, bs, ind);
    var data := FillNode(buf', b, records[ind]);
    head, tmp := Attach(ind, listMaps, currentNode, data, nodes, records);
  }

  twostate lemma FreshMore(new nodes: seq<Node>, new n: Node)
    requires fresh(nodes) && fresh(n)
    ensures fresh(nodes + [n])
  {
  }

  /** The reading loop. */
  method ReadLines(file: string, garbage: string, b: LineBuffers, ghost bs: seq<string>,
                   ghost records: seq<seq<string>>)
    returns (listMaps: Node?, ghost nodes: seq<Node>)
    requires b.Valid() && AreRecords(bs, records) && Ahead(bs, 0, file, 0, garbage, false)
    modifies b.Arrays()
    ensures fresh(nodes) && nodes != [] && |nodes| == |bs| && listMaps == nodes[0]
    ensures Chain(nodes) && DataIs(nodes, records)
  {
    var ind, pos, buf, eof := 0, 0, garbage, false;
    var currentNode: Node? := null;
    listMaps, nodes := null, [];
    while !eof
      invariant ind == |nodes| && (eof ==> nodes != []) && Ahead(bs, ind, file, pos, buf, eof)
      invariant Building(nodes, records, listMaps, currentNode)
      invariant fresh(nodes) && (currentNode != null ==> fresh(currentNode))
      decreases !eof, |file| - pos
    {
      var tmp: Node;
      pos, buf, eof, listMaps, tmp := AddLine(file, pos, buf, b, ind, listMaps, currentNode, nodes, bs, records);
      FreshMore(nodes, tmp);
      currentNode := tmp;
      nodes := nodes + [tmp];
      ind := ind + 1;
    }
    AllRead(bs, ind, file, pos, buf);
  }

  /** pmparser_parse: at least one node, in the order of the buffers; two or
      more form a list, but a single one is left linked to itself. */
  method PmparserParse(file: string, garbage: string, ghost records: seq<seq<string>>)
    returns (it: Iterator, ghost nodes: seq<Node>)
    requires AreRecords(Buffers(file, 0, garbage), records)
    ensures fresh(it) && fresh(nodes)
    ensures |nodes| == |records| > 0 && DataIs(nodes, records)
    ensures it.head == nodes[0] && it.At(nodes, 0) && Chain(nodes)
  {
    ghost var bs := Buffers(file, 0, garbage);
    assert bs[0..] == bs;
    var b := new LineBuffers();
    var listMaps;
    listMaps, nodes := ReadLines(file, garbage, b, bs, records);
    it := new Iterator(listMaps);
  }

  lemma AllRead(bs: seq<string>, k: nat, file: string, pos: nat, buf: string)
    requires Ahead(bs, k, file, pos, buf, true)
    ensures k == |bs|
  {
    assert |bs[k..]| == |bs| - k;
  }

  /** What of the C heap is still allocated. */
  class Heap {
    ghost var live: set<Node>

    ghost method Free(n: Node)
      requires n in live
      modifies this
      ensures live == old(live) - {n}
    {
      live := live - {n};
    }

    /** Reading a node's link needs the node. */
    function Follow(n: Node): Node?
      requires n in live
      reads this, n
    {
      n.next
    }

    /** pmparser_free: where every step frees and reads live nodes only, a list
        is freed whole. */
    method PmparserFree(it: Iterator, ghost nodes: seq<Node>)
      requires it.head == if nodes == [] then null else nodes[0]
      requires it.head != null ==> it.head in live && FreesSafely(live, it.head, it.head.next)
      modifies this
      ensures Linked(nodes) ==> live == old(live) - set n | n in nodes
    {
      var mapsList := it.head;
      if mapsList == null {
        return;
      }
      var act: Node? := mapsList;
      var nxt := Follow(act);
      ghost var k := 0;
      assert Linked(nodes) ==> LinkAt(nodes, 0);
      while act != null
        invariant FreesSafely(live, act, nxt)
        invariant Linked(nodes) ==> Freeing(nodes, k, act, nxt) && live == old(live) - set n | n in nodes[..k]
        decreases live
      {
        assert Linked(nodes) && k + 1 < |nodes| ==> LinkAt(nodes, k + 1);
        Free(act);
        act := nxt;
        if nxt != null {
          nxt := Follow(nxt);
        }
        k := k + 1;
      }
    }
  }

  /** The freeing loop before node k of a list. */
  ghost predicate Freeing(nodes: seq<Node>, k: nat, act: Node?, nxt: Node?) {
    && k <= |nodes|
    && act == (if k < |nodes| then nodes[k] else null)
    && nxt == (if k + 1 < |nodes| then nodes[k + 1] else null)
  }

  // ---- when freeing is safe ----

  /** What the freeing loop needs of the heap from here on: each node it frees
      is live, and so is each node whose link it reads. */
  ghost predicate FreesSafely(live: set<Node>, act: Node?, nxt: Node?)
    reads live
    decreases |live|
  {
    act != null ==>
      && act in live
      && (nxt != null ==> nxt in live - {act})
      && FreesSafely(live - {act}, nxt, if nxt != null then nxt.next else null)
  }

  lemma {:induction false} FreesFrom(nodes: seq<Node>, k: nat, live: set<Node>)
    requires Linked(nodes) && k <= |nodes| && forall i | k <= i < |nodes| :: nodes[i] in live
    ensures FreesSafely(live, if k < |nodes| then nodes[k] else null, if k + 1 < |nodes| then nodes[k + 1] else null)
    decreases |nodes| - k
  {
    if k < |nodes| {
      FreesFrom(nodes, k + 1, live - {nodes[k]});
      assert k + 1 < |nodes| ==> LinkAt(nodes, k + 1);
    }
  }

  /** What is built can be freed exactly when it has two nodes or more: the
      link of a single one is read after that node was freed. */
  lemma FreeSafeExactly(nodes: seq<Node>, live: set<Node>)
    requires nodes != [] && Chain(nodes) && forall i | 0 <= i < |nodes| :: nodes[i] in live
    ensures FreesSafely(live, nodes[0], nodes[0].next) <==> |nodes| >= 2
  {
    if |nodes| >= 2 {
      assert LinkAt(nodes, 0);
      FreesFrom(nodes, 0, live);
    }
  }
}
