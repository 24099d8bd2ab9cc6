/** Splitting a line of /proc/pid/maps into its seven fields. */
module MapsLine {
  import opened Memory

  predicate Blank(c: char) { c == '\t' || c == ' ' }

  /** What ends a field. */
  datatype End = AtDash | AtBlank | AtBlankOrNewline

  predicate Ends(e: End, c: char) {
    match e
    case AtDash => c == '-'
    case AtBlank => Blank(c)
    case AtBlankOrNewline => Blank(c) || c == '\n'
  }

  /** The first position that ends the field; |s| when the scan would leave the
      line. */
  function First(s: string, e: End, from: nat): (n: nat)
    requires from <= |s|
    ensures from <= n <= |s|
    decreases |s| - from
  {
    if from == |s| || Ends(e, s[from]) then from else First(s, e, from + 1)
  }

  lemma {:induction false} FirstMeans(s: string, e: End, from: nat)
    requires from <= |s|
    ensures var n := First(s, e, from);
            (forall i | from <= i < n :: !Ends(e, s[i])) && (n < |s| ==> Ends(e, s[n]))
    decreases |s| - from
  {
    if from < |s| && !Ends(e, s[from]) { FirstMeans(s, e, from + 1); }
  }

  function AfterBlanks(s: string, from: nat): (n: nat)
    requires from <= |s|
    ensures from <= n <= |s|
    decreases |s| - from
  {
    if from == |s| || !Blank(s[from]) then from else AfterBlanks(s, from + 1)
  }

  lemma {:induction false} AfterBlanksMeans(s: string, from: nat)
    requires from <= |s|
    ensures var n := AfterBlanks(s, from);
            (forall i | from <= i < n :: Blank(s[i])) && (n < |s| ==> !Blank(s[n]))
    decreases |s| - from
  {
    if from < |s| && Blank(s[from]) { AfterBlanksMeans(s, from + 1); }
  }

  /** Of the columns left the last is the pathname, which a newline ends too. */
  function ColumnEnd(left: nat): End {
    if left == 1 then AtBlankOrNewline else AtBlank
  }

  function Columns(s: string, from: nat, left: nat): (r: Option<seq<string>>)
    requires from <= |s|
    ensures r.Some? ==> |r.value| == left
    decreases left
  {
    if left == 0 then Some([])
    else
      var lo := AfterBlanks(s, from);
      var hi := First(s, ColumnEnd(left), lo);
      if hi == |s| then None
      else
        match Columns(s, hi, left - 1)
        case None => None
        case Some(rest) => Some([s[lo..hi]] + rest)
  }

  /** Permissions, offset, device, inode and pathname. */
  const COLUMNS: nat := 5

  /** Two addresses and then this many columns; nothing when a scan would leave
      the line. */
  function Split(s: string, columns: nat): (r: Option<seq<string>>)
    ensures r.Some? ==> |r.value| == 2 + columns
  {
    var dash := First(s, AtDash, 0);
    if dash == |s| then None
    else
      var hi := First(s, AtBlank, dash + 1);
      if hi == |s| then None
      else
        match Columns(s, hi, columns)
        case None => None
        case Some(rest) => Some([s[..dash], s[dash + 1..hi]] + rest)
  }

  // ---- lines as they are written ----

  /** A column and the blanks before it. */
  datatype Cell = Cell(gap: string, field: string)

  function RenderCells(cells: seq<Cell>): string {
    if cells == [] then "" else cells[0].gap + (cells[0].field + RenderCells(cells[1..]))
  }

  function FieldsOf(cells: seq<Cell>): (fs: seq<string>)
    ensures |fs| == |cells|
  {
    seq(|cells|, i requires 0 <= i < |cells| => cells[i].field)
  }

  predicate AllBlank(s: string) { forall i | 0 <= i < |s| :: Blank(s[i]) }

  predicate NoEnd(e: End, s: string) { forall i | 0 <= i < |s| :: !Ends(e, s[i]) }

  /** Columns have blanks before them and none inside; only the pathname may be
      empty, and then a newline must follow at once. */
  predicate GoodCell(c: Cell, left: nat, next: char) {
    && c.gap != "" && AllBlank(c.gap) && NoEnd(ColumnEnd(left), c.field)
    && Ends(ColumnEnd(left), next)
    && (c.field == "" ==> !Blank(next))
  }

  predicate GoodCells(cells: seq<Cell>, tail: string)
  {
    tail != "" &&
    (cells != [] ==>
       GoodCell(cells[0], |cells|, (RenderCells(cells[1..]) + tail)[0]) && GoodCells(cells[1..], tail))
  }

  /** A whole line: two addresses, columns, and what follows the pathname. */
  datatype Line = Line(addr1: string, addr2: string, cells: seq<Cell>, tail: string)

  predicate GoodLine(l: Line) {
    l.cells != [] && NoEnd(AtDash, l.addr1) && NoEnd(AtBlank, l.addr2) && GoodCells(l.cells, l.tail)
  }

  function Render(l: Line): string {
    l.addr1 + ("-" + (l.addr2 + (RenderCells(l.cells) + l.tail)))
  }

  // ---- round trip ----

  lemma FirstIs(s: string, e: End, from: nat, n: nat)
    requires from <= n < |s| && (forall i | from <= i < n :: !Ends(e, s[i])) && Ends(e, s[n])
    ensures First(s, e, from) == n
  {
    FirstMeans(s, e, from);
  }

  /** What stands at a position splits with the text from there on. */
  lemma Cut(s: string, from: nat, a: string, b: string)
    requires from <= |s| && s[from..] == a + b
    ensures from + |a| <= |s| && s[from..from + |a|] == a && s[from + |a|..] == b
    ensures forall i | 0 <= i < |a| :: s[from + i] == a[i]
    ensures b != "" ==> from + |a| < |s| && s[from + |a|] == b[0]
  {
    var t := s[from..];
    assert t[..|a|] == a && t[|a|..] == b;
    forall i | 0 <= i < |a| ensures s[from + i] == a[i] { assert t[i] == a[i]; }
    if b != "" { assert t[|a|] == b[0]; }
  }

  lemma FirstIn(s: string, from: nat, f: string, rest: string, e: End)
    requires from <= |s| && s[from..] == f + rest && NoEnd(e, f) && rest != "" && Ends(e, rest[0])
    ensures from + |f| < |s| && First(s, e, from) == from + |f|
    ensures s[from..from + |f|] == f && s[from + |f|..] == rest
  {
    Cut(s, from, f, rest);
    forall i | from <= i < from + |f| ensures !Ends(e, s[i]) { assert s[from + (i - from)] == f[i - from]; }
    FirstIs(s, e, from, from + |f|);
  }

  lemma BlanksIn(s: string, from: nat, g: string, rest: string)
    requires from <= |s| && s[from..] == g + rest && AllBlank(g) && rest != "" && !Blank(rest[0])
    ensures from + |g| < |s| && AfterBlanks(s, from) == from + |g| && s[from + |g|..] == rest
  {
    Cut(s, from, g, rest);
    forall i | from <= i < from + |g| ensures Blank(s[i]) { assert s[from + (i - from)] == g[i - from]; }
    AfterBlanksMeans(s, from);
  }

  lemma FieldBegins(c: Cell, left: nat, rest: string)
    requires rest != "" && GoodCell(c, left, rest[0])
    ensures c.field + rest != "" && !Blank((c.field + rest)[0])
  {
    if c.field == "" { assert c.field + rest == rest; }
    else { assert (c.field + rest)[0] == c.field[0] && !Ends(ColumnEnd(left), c.field[0]); }
  }

  lemma CellIn(s: string, from: nat, c: Cell, left: nat, rest: string)
    requires from <= |s| && s[from..] == c.gap + (c.field + rest)
    requires rest != "" && GoodCell(c, left, rest[0])
    ensures var lo := AfterBlanks(s, from);
            var hi := First(s, ColumnEnd(left), lo);
            hi < |s| && s[lo..hi] == c.field && s[hi..] == rest
  {
    FieldBegins(c, left, rest);
    BlanksIn(s, from, c.gap, c.field + rest);
    FirstIn(s, from + |c.gap|, c.field, rest, ColumnEnd(left));
  }

  lemma CellsFirst(cells: seq<Cell>, tail: string)
    requires cells != []
    ensures RenderCells(cells) + tail == cells[0].gap + (cells[0].field + (RenderCells(cells[1..]) + tail))
  {
    var g, f, r := cells[0].gap, cells[0].field, RenderCells(cells[1..]);
    assert g + (f + r) + tail == g + (f + (r + tail));
  }

  lemma FirstCellIn(s: string, from: nat, cells: seq<Cell>, tail: string) returns (hi: nat)
    requires from <= |s| && cells != [] && s[from..] == RenderCells(cells) + tail && GoodCells(cells, tail)
    ensures hi <= |s| && s[hi..] == RenderCells(cells[1..]) + tail && GoodCells(cells[1..], tail)
    ensures Columns(s, from, |cells|) == match Columns(s, hi, |cells| - 1)
                                         case None => None
                                         case Some(rest) => Some([cells[0].field] + rest)
  {
    CellsFirst(cells, tail);
    GoodFirst(cells, tail);
    CellIn(s, from, cells[0], |cells|, RenderCells(cells[1..]) + tail);
    hi := First(s, ColumnEnd(|cells|), AfterBlanks(s, from));
  }

  lemma {:induction false} ColumnsOfCells(s: string, from: nat, cells: seq<Cell>, tail: string)
    requires from <= |s| && s[from..] == RenderCells(cells) + tail && GoodCells(cells, tail)
    ensures Columns(s, from, |cells|) == Some(FieldsOf(cells))
    decreases |cells|
  {
    if cells == [] {
      assert Columns(s, from, 0) == Some([]);
    } else {
      var hi := FirstCellIn(s, from, cells, tail);
      ColumnsOfCells(s, hi, cells[1..], tail);
      PutFirst(Columns(s, from, |cells|), Columns(s, hi, |cells[1..]|), cells);
    }
  }

  lemma PutFirst(all: Option<seq<string>>, more: Option<seq<string>>, cells: seq<Cell>)
    requires cells != [] && more == Some(FieldsOf(cells[1..]))
    requires all == match more case None => None case Some(rest) => Some([cells[0].field] + rest)
    ensures all == Some(FieldsOf(cells))
  {
    FieldsFirst(cells);
  }

  lemma FieldsFirst(cells: seq<Cell>)
    requires cells != []
    ensures FieldsOf(cells) == [cells[0].field] + FieldsOf(cells[1..])
  {
  }

  lemma GoodFirst(cells: seq<Cell>, tail: string)
    requires cells != []
    ensures var rest := RenderCells(cells[1..]) + tail;
            GoodCells(cells, tail) <==>
            rest != "" && tail != "" && GoodCell(cells[0], |cells|, rest[0]) && GoodCells(cells[1..], tail)
  {
  }

  lemma AddressesIn(s: string, addr1: string, addr2: string, rest: string)
    requires s == addr1 + ("-" + (addr2 + rest)) && NoEnd(AtDash, addr1) && NoEnd(AtBlank, addr2)
    requires rest != "" && Blank(rest[0])
    ensures var dash := |addr1|;
            var hi := dash + 1 + |addr2|;
            && First(s, AtDash, 0) == dash < |s| && First(s, AtBlank, dash + 1) == hi < |s|
            && s[..dash] == addr1 && s[dash + 1..hi] == addr2 && s[hi..] == rest
  {
    var dash := |addr1|;
    assert s[0..] == s;
    FirstIn(s, 0, addr1, "-" + (addr2 + rest), AtDash);
    Cut(s, dash, "-", addr2 + rest);
    FirstIn(s, dash + 1, addr2, rest, AtBlank);
    assert s[..dash] == s[0..dash];
  }

  lemma CellsBeginBlank(cells: seq<Cell>, tail: string)
    requires cells != [] && GoodCells(cells, tail)
    ensures RenderCells(cells) + tail != "" && Blank((RenderCells(cells) + tail)[0])
  {
    CellsFirst(cells, tail);
    GoodFirst(cells, tail);
    assert (RenderCells(cells) + tail)[0] == cells[0].gap[0];
  }

  /** Splitting a rendered line gives back exactly its fields, whatever
      the blanks and whatever follows the pathname. */
  lemma SplitRendered(l: Line)
    requires GoodLine(l)
    ensures Split(Render(l), |l.cells|) == Some([l.addr1, l.addr2] + FieldsOf(l.cells))
  {
    CellsBeginBlank(l.cells, l.tail);
    AddressesIn(Render(l), l.addr1, l.addr2, RenderCells(l.cells) + l.tail);
    SplitParts(Render(l), |l.addr1|, |l.addr1| + 1 + |l.addr2|, l);
  }

  lemma SplitParts(s: string, dash: nat, hi: nat, l: Line)
    requires First(s, AtDash, 0) == dash < |s| && First(s, AtBlank, dash + 1) == hi < |s|
    requires s[..dash] == l.addr1 && s[dash + 1..hi] == l.addr2
    requires s[hi..] == RenderCells(l.cells) + l.tail && GoodCells(l.cells, l.tail)
    ensures Split(s, |l.cells|) == Some([l.addr1, l.addr2] + FieldsOf(l.cells))
  {
    ColumnsOfCells(s, hi, l.cells, l.tail);
  }

  lemma GapFound(s: string, from: nat)
    requires from < |s| && Blank(s[from])
    ensures from < AfterBlanks(s, from) && AllBlank(s[from..AfterBlanks(s, from)])
  {
    AfterBlanksMeans(s, from);
    var g := s[from..AfterBlanks(s, from)];
    forall i | 0 <= i < |g| ensures Blank(g[i]) { assert g[i] == s[from + i]; }
  }

  lemma FieldFound(s: string, lo: nat, e: End)
    requires lo <= |s|
    ensures NoEnd(e, s[lo..First(s, e, lo)])
  {
    FirstMeans(s, e, lo);
    var f := s[lo..First(s, e, lo)];
    forall i | 0 <= i < |f| ensures !Ends(e, f[i]) { assert f[i] == s[lo + i]; }
  }

  lemma NextFound(s: string, lo: nat, e: End)
    requires lo <= |s| && First(s, e, lo) < |s|
    ensures Ends(e, s[First(s, e, lo)]) && s[First(s, e, lo)..] != [] && s[First(s, e, lo)..][0] == s[First(s, e, lo)]
  {
    FirstMeans(s, e, lo);
  }

  /** The column found at from is a well-formed cell. */
  lemma GoodCellFound(s: string, from: nat, left: nat, lo: nat, hi: nat)
    requires from < |s| && Blank(s[from]) && lo == AfterBlanks(s, from)
    requires hi == First(s, ColumnEnd(left), lo) < |s|
    ensures GoodCell(Cell(s[from..lo], s[lo..hi]), left, s[hi..][0])
  {
    GapFound(s, from);
    FieldFound(s, lo, ColumnEnd(left));
    NextFound(s, lo, ColumnEnd(left));
    AfterBlanksMeans(s, from);
  }

  lemma CellFound(s: string, from: nat, left: nat, cells: seq<Cell>, tail: string)
    requires from < |s| && left > 0 && |cells| == left && Blank(s[from])
    requires var lo := AfterBlanks(s, from);
             var hi := First(s, ColumnEnd(left), lo);
             hi < |s| && cells[0] == Cell(s[from..lo], s[lo..hi]) &&
             s[hi..] == RenderCells(cells[1..]) + tail
    requires GoodCells(cells[1..], tail)
    ensures GoodCells(cells, tail) && s[from..] == RenderCells(cells) + tail
  {
    var lo := AfterBlanks(s, from);
    var hi := First(s, ColumnEnd(left), lo);
    GoodCellFound(s, from, left, lo, hi);
    GoodFirst(cells, tail);
    CellsFirst(cells, tail);
    ThreeParts(s, from, lo, hi);
  }

  lemma ThreeParts(s: string, from: nat, lo: nat, hi: nat)
    requires from <= lo <= hi <= |s|
    ensures s[from..] == s[from..lo] + (s[lo..hi] + s[hi..])
  {
  }

  lemma {:induction false} CellsOfColumns(s: string, from: nat, left: nat) returns (cells: seq<Cell>, tail: string)
    requires from < |s| && Columns(s, from, left).Some? && (left > 0 ==> Blank(s[from]))
    ensures |cells| == left && GoodCells(cells, tail) && s[from..] == RenderCells(cells) + tail
    ensures FieldsOf(cells) == Columns(s, from, left).value
    decreases left
  {
    if left == 0 {
      cells, tail := [], s[from..];
    } else {
      var lo := AfterBlanks(s, from);
      var hi := First(s, ColumnEnd(left), lo);
      var rest: seq<Cell>;
      FirstMeans(s, ColumnEnd(left), lo);
      rest, tail := CellsOfColumns(s, hi, left - 1);
      cells := [Cell(s[from..lo], s[lo..hi])] + rest;
      assert cells[1..] == rest;
      CellFound(s, from, left, cells, tail);
      assert FieldsOf(cells) == [s[lo..hi]] + FieldsOf(rest);
    }
  }

  /** The line that was split, from its fields. */
  lemma SplitInverse(s: string, columns: nat) returns (l: Line)
    requires columns > 0 && Split(s, columns).Some?
    ensures GoodLine(l) && |l.cells| == columns && Render(l) == s
    ensures Split(s, columns).value == [l.addr1, l.addr2] + FieldsOf(l.cells)
  {
    var dash := First(s, AtDash, 0);
    var hi := First(s, AtBlank, dash + 1);
    FirstMeans(s, AtDash, 0);
    FirstMeans(s, AtBlank, dash + 1);
    var cells, tail := CellsOfColumns(s, hi, columns);
    l := Line(s[..dash], s[dash + 1..hi], cells, tail);
    WholeLine(s, dash, hi);
    FieldFound(s, dash + 1, AtBlank);
  }

  lemma WholeLine(s: string, dash: nat, hi: nat)
    requires dash < hi <= |s| && s[dash] == '-'
    ensures s == s[..dash] + ("-" + (s[dash + 1..hi] + s[hi..]))
  {
  }

  /** The scans stay inside the line exactly when it is such a rendering. */
  lemma SplitExactly(s: string, columns: nat)
    requires columns > 0
    ensures Split(s, columns).Some? <==> exists l :: GoodLine(l) && |l.cells| == columns && Render(l) == s
  {
    if Split(s, columns).Some? {
      var l := SplitInverse(s, columns);
    }
    if l :| GoodLine(l) && |l.cells| == columns && Render(l) == s {
      SplitRendered(l);
    }
  }

  // ---- such lines in plain characters ----

  predicate PlainBlank(c: char) { c == ' ' || c == '\t' }

  /** Column i of n: at least one blank before it and none inside; only the last
      may be empty, and it holds no newline. */
  predicate PlainCell(c: Cell, i: nat, n: nat) {
    && c.gap != "" && (forall k | 0 <= k < |c.gap| :: PlainBlank(c.gap[k]))
    && (forall k | 0 <= k < |c.field| :: !PlainBlank(c.field[k]))
    && (i == n - 1 ==> '\n' !in c.field)
    && (i < n - 1 ==> c.field != "")
  }

  /** A blank or a newline ends the pathname, a newline at once if it is empty. */
  predicate PlainTail(c: Cell, tail: string) {
    tail != "" && (tail[0] == '\n' || (c.field != "" && PlainBlank(tail[0])))
  }

  ghost predicate PlainLine(l: Line) {
    && l.cells != [] && '-' !in l.addr1 && (forall k | 0 <= k < |l.addr2| :: !PlainBlank(l.addr2[k]))
    && (forall i | 0 <= i < |l.cells| :: PlainCell(l.cells[i], i, |l.cells|))
    && PlainTail(l.cells[|l.cells| - 1], l.tail)
  }

  lemma PlainNoEnd(s: string)
    ensures NoEnd(AtDash, s) <==> '-' !in s
    ensures NoEnd(AtBlank, s) <==> forall k | 0 <= k < |s| :: !PlainBlank(s[k])
    ensures NoEnd(AtBlankOrNewline, s) <==> (forall k | 0 <= k < |s| :: !PlainBlank(s[k])) && '\n' !in s
  {
    if NoEnd(AtDash, s) { forall k | 0 <= k < |s| ensures s[k] != '-' { assert !Ends(AtDash, s[k]); } }
    if NoEnd(AtBlankOrNewline, s) {
      forall k | 0 <= k < |s| ensures s[k] != '\n' && !PlainBlank(s[k]) { assert !Ends(AtBlankOrNewline, s[k]); }
    }
    if NoEnd(AtBlank, s) { forall k | 0 <= k < |s| ensures !PlainBlank(s[k]) { assert !Ends(AtBlank, s[k]); } }
  }

  /** Column i is well formed before next, the first character after it. */
  lemma PlainGoodCell(c: Cell, i: nat, n: nat, next: char)
    requires i < n && (i < n - 1 ==> PlainBlank(next))
    ensures GoodCell(c, n - i, next) <==>
            PlainCell(c, i, n) && (i == n - 1 ==> next == '\n' || (c.field != "" && PlainBlank(next)))
  {
    PlainNoEnd(c.field);
    if AllBlank(c.gap) { forall k | 0 <= k < |c.gap| ensures PlainBlank(c.gap[k]) { assert Blank(c.gap[k]); } }
  }

  /** These are the columns from i on, and what follows them. */
  ghost predicate PlainFrom(cells: seq<Cell>, i: nat, n: nat, tail: string) {
    && cells != [] && i + |cells| == n
    && (forall j | 0 <= j < |cells| :: PlainCell(cells[j], i + j, n))
    && PlainTail(cells[|cells| - 1], tail)
  }

  lemma PlainFirst(cells: seq<Cell>, i: nat, n: nat, tail: string)
    requires |cells| > 1 && i + |cells| == n
    ensures PlainFrom(cells, i, n, tail) <==> PlainCell(cells[0], i, n) && PlainFrom(cells[1..], i + 1, n, tail)
  {
    var rest := cells[1..];
    if PlainCell(cells[0], i, n) && PlainFrom(rest, i + 1, n, tail) {
      forall j | 0 <= j < |cells| ensures PlainCell(cells[j], i + j, n) {
        if j > 0 { assert PlainCell(rest[j - 1], i + 1 + (j - 1), n); }
      }
    }
    if PlainFrom(cells, i, n, tail) {
      assert PlainCell(cells[0], i + 0, n);
      forall j | 0 <= j < |rest| ensures PlainCell(rest[j], i + 1 + j, n) {
        assert PlainCell(cells[j + 1], i + (j + 1), n);
      }
    }
  }

  lemma OneCell(cells: seq<Cell>, i: nat, n: nat, tail: string)
    requires |cells| == 1 && i + 1 == n
    ensures GoodCells(cells, tail) <==> PlainFrom(cells, i, n, tail)
  {
    GoodFirst(cells, tail);
    assert RenderCells(cells[1..]) + tail == tail;
    if tail != "" { PlainGoodCell(cells[0], i, n, tail[0]); }
    assert GoodCells(cells[1..], tail) <==> tail != "";
  }

  lemma {:induction false} PlainCells(cells: seq<Cell>, i: nat, n: nat, tail: string)
    requires cells != [] && i + |cells| == n
    ensures GoodCells(cells, tail) <==> PlainFrom(cells, i, n, tail)
    decreases |cells|
  {
    if |cells| == 1 {
      OneCell(cells, i, n, tail);
    } else {
      var rest := cells[1..];
      PlainCells(rest, i + 1, n, tail);
      PlainFirst(cells, i, n, tail);
      GoodFirst(cells, tail);
      if GoodCells(rest, tail) {
        CellsBeginBlank(rest, tail);
        var next := (RenderCells(rest) + tail)[0];
        assert Blank(next) && PlainBlank(next);
        PlainGoodCell(cells[0], i, n, next);
      }
    }
  }

  /** The lines that split are told by their characters: '-', blanks and newline
      stand only where they separate. */
  lemma GoodLinePlainly(l: Line)
    ensures GoodLine(l) <==> PlainLine(l)
  {
    PlainNoEnd(l.addr1);
    PlainNoEnd(l.addr2);
    if l.cells != [] {
      PlainCells(l.cells, 0, |l.cells|, l.tail);
      assert PlainFrom(l.cells, 0, |l.cells|, l.tail) <==>
             (forall i | 0 <= i < |l.cells| :: PlainCell(l.cells[i], i, |l.cells|)) &&
             PlainTail(l.cells[|l.cells| - 1], l.tail);
    }
  }

  /** l is the plain writing s of the fields f. */
  ghost predicate Writes(l: Line, s: string, f: seq<string>) {
    PlainLine(l) && s == Render(l) && f == [l.addr1, l.addr2] + FieldsOf(l.cells)
  }

  lemma PlainSplit(s: string, f: seq<string>, l: Line)
    requires |f| > 2 && Writes(l, s, f)
    ensures Split(s, |f| - 2) == Some(f)
  {
    GoodLinePlainly(l);
    SplitRendered(l);
  }

  lemma SplitPlain(s: string, f: seq<string>) returns (l: Line)
    requires |f| > 2 && Split(s, |f| - 2) == Some(f)
    ensures Writes(l, s, f)
  {
    l := SplitInverse(s, |f| - 2);
    GoodLinePlainly(l);
  }

  /** A line is split into fields exactly when it is their plain writing. */
  lemma SplitPlainly(s: string, f: seq<string>)
    requires |f| > 2
    ensures Split(s, |f| - 2) == Some(f) <==> exists l :: Writes(l, s, f)
  {
    if Split(s, |f| - 2) == Some(f) { var l := SplitPlain(s, f); }
    if l :| Writes(l, s, f) { PlainSplit(s, f, l); }
  }

  // ---- the scans in place ----

  /** dst holds the field as a C string. */
  ghost predicate HoldsString(dst: array<char>, f: string)
    reads dst
  {
    |f| < dst.Length && dst[..|f|] == f && dst[|f|] == '\0'
  }

  /** One copying scan, from i to the end of the field. */
  method CopyField(buf: string, i: nat, e: End, dst: array<char>) returns (j: nat)
    requires i <= |buf| && First(buf, e, i) < |buf| && First(buf, e, i) - i < dst.Length
    modifies dst
    ensures j == First(buf, e, i) && HoldsString(dst, buf[i..j])
  {
    FirstMeans(buf, e, i);
    var orig := i;
    j := i;
    while !Ends(e, buf[j])
      invariant i <= j <= First(buf, e, i)
      invariant dst[..j - i] == buf[i..j]
      decreases |buf| - j
    {
      dst[j - orig] := buf[j];
      assert dst[..j + 1 - i] == buf[i..j + 1];
      j := j + 1;
    }
    dst[j - orig] := '\0';
  }

  method SkipBlanks(buf: string, i: nat) returns (j: nat)
    requires i <= |buf| && AfterBlanks(buf, i) < |buf|
    ensures j == AfterBlanks(buf, i)
  {
    AfterBlanksMeans(buf, i);
    j := i;
    while Blank(buf[j])
      invariant i <= j <= AfterBlanks(buf, i)
      decreases |buf| - j
    {
      j := j + 1;
    }
  }

  method CopyColumn(buf: string, i: nat, e: End, dst: array<char>, ghost fields: seq<string>) returns (j: nat)
    requires i <= |buf| && fields != [] && e == ColumnEnd(|fields|) && Columns(buf, i, |fields|) == Some(fields)
    requires |fields[0]| < dst.Length
    modifies dst
    ensures j <= |buf| && Columns(buf, j, |fields| - 1) == Some(fields[1..])
    ensures HoldsString(dst, fields[0])
  {
    j := SkipBlanks(buf, i);
    j := CopyField(buf, j, e, dst);
  }

  /** The five columns after the addresses. */
  method CopyColumns(buf: string, i: nat, perm: array<char>, offset: array<char>, device: array<char>,
                     inode: array<char>, pathname: array<char>, ghost f: seq<string>)
    requires i <= |buf| && |f| == COLUMNS && Columns(buf, i, |f|) == Some(f)
    requires |f[0]| < perm.Length && |f[1]| < offset.Length && |f[2]| < device.Length
    requires |f[3]| < inode.Length && |f[4]| < pathname.Length
    requires perm !in {offset, device, inode, pathname} && offset !in {device, inode, pathname}
    requires device !in {inode, pathname} && inode != pathname
    modifies perm, offset, device, inode, pathname
    ensures HoldsString(perm, f[0]) && HoldsString(offset, f[1]) && HoldsString(device, f[2])
    ensures HoldsString(inode, f[3]) && HoldsString(pathname, f[4])
  {
    assert f[1..][1..] == f[2..] && f[2..][1..] == f[3..] && f[3..][1..] == f[4..];
    var j := CopyColumn(buf, i, AtBlank, perm, f);
    j := CopyColumn(buf, j, AtBlank, offset, f[1..]);
    j := CopyColumn(buf, j, AtBlank, device, f[2..]);
    j := CopyColumn(buf, j, AtBlank, inode, f[3..]);
    j := CopyColumn(buf, j, AtBlankOrNewline, pathname, f[4..]);
  }

  lemma TwoFirst<T>(f: seq<T>, a: T, b: T, rest: seq<T>)
    requires f == [a, b] + rest
    ensures f[0] == a && f[1] == b && f[2..] == rest
  {
  }

  lemma SplitMeans(buf: string, f: seq<string>) returns (dash: nat, hi: nat)
    requires |f| >= 2 && Split(buf, |f| - 2) == Some(f)
    ensures dash == First(buf, AtDash, 0) < |buf| && f[0] == buf[..dash]
    ensures hi == First(buf, AtBlank, dash + 1) < |buf| && f[1] == buf[dash + 1..hi]
    ensures Columns(buf, hi, |f| - 2) == Some(f[2..])
  {
    dash := First(buf, AtDash, 0);
    hi := First(buf, AtBlank, dash + 1);
    var rest := Columns(buf, hi, |f| - 2);
    TwoFirst(f, buf[..dash], buf[dash + 1..hi], rest.value);
  }

  /** _pmparser_split_line: the seven buffers hold the seven fields. */
  method SplitLine(buf: string, addr1: array<char>, addr2: array<char>, perm: array<char>, offset: array<char>,
                   device: array<char>, inode: array<char>, pathname: array<char>, ghost f: seq<string>)
    requires |f| == 2 + COLUMNS && Split(buf, |f| - 2) == Some(f)
    requires
      && |f[0]| < addr1.Length && |f[1]| < addr2.Length && |f[2]| < perm.Length && |f[3]| < offset.Length
      && |f[4]| < device.Length && |f[5]| < inode.Length && |f[6]| < pathname.Length
    requires addr1 !in {addr2, perm, offset, device, inode, pathname}
    requires addr2 !in {perm, offset, device, inode, pathname}
    requires perm !in {offset, device, inode, pathname} && offset !in {device, inode, pathname}
    requires device !in {inode, pathname} && inode != pathname
    modifies addr1, addr2, perm, offset, device, inode, pathname
    ensures
      && HoldsString(addr1, f[0]) && HoldsString(addr2, f[1]) && HoldsString(perm, f[2])
      && HoldsString(offset, f[3]) && HoldsString(device, f[4]) && HoldsString(inode, f[5])
      && HoldsString(pathname, f[6])
  {
    ghost var dash, hi := SplitMeans(buf, f);
    var i := CopyField(buf, 0, AtDash, addr1);
    assert buf[0..i] == buf[..i];
    i := i + 1;
    i := CopyField(buf, i, AtBlank, addr2);
    CopyColumns(buf, i, perm, offset, device, inode, pathname, f[2..]);
  }
}
