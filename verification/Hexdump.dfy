/** The rows that hexdump prints, read back as a map from addresses. */
module Hexdump {
  import opened Memory

  const WRAP := 0x1_0000_0000_0000_0000

  datatype Token = Label(address: int) | Item(value: int) | Newline

  /** The uint32_t at a place of the data. */
  function Dword(data: seq<byte>, k: nat): int
    requires k + 4 <= |data|
  {
    data[k] as int + 0x100 * data[k + 1] as int + 0x1_0000 * data[k + 2] as int + 0x100_0000 * data[k + 3] as int
  }

  predicate ValidFormat(format: byte) { format == 1 || format == 4 }

  function Count(len: nat, format: byte): (n: nat)
    ensures format == 4 ==> 4 * n <= len < 4 * n + 4
  {
    if format == 4 then len / 4 else len
  }

  function ItemAt(data: seq<byte>, len: nat, format: byte, i: nat): int
    requires ValidFormat(format) && len <= |data| && i < Count(len, format)
  {
    if format == 1 then data[i] as int else Dword(data, 4 * i)
  }

  /** What is shown of the first len bytes: single bytes, or four at a time. */
  function ItemsOf(data: seq<byte>, len: nat, format: byte): seq<int>
    requires ValidFormat(format) && len <= |data|
  {
    seq(Count(len, format), i requires 0 <= i < Count(len, format) => ItemAt(data, len, format, i))
  }

  /** The label of the row that item i begins or is in. */
  function LabelAt(offset: u64, i: nat): int {
    (offset + 20 * (i / 5)) % WRAP
  }

  predicate EndsRow(i: nat) { i % 5 == 4 }

  lemma LabelSteps(offset: u64, i: nat)
    ensures LabelAt(offset, i + 1) == if EndsRow(i) then (LabelAt(offset, i) + 20) % WRAP else LabelAt(offset, i)
  {
    assert (i + 1) / 5 == if EndsRow(i) then i / 5 + 1 else i / 5;
  }

  /** The output after n of the items. */
  function Emitted(items: seq<int>, offset: u64, n: nat): seq<Token>
    requires n <= |items|
  {
    if n == 0 then [Label(offset)]
    else
      Emitted(items, offset, n - 1) + [Item(items[n - 1])] +
      if !EndsRow(n - 1) then []
      else if n == |items| then [Newline]
      else [Newline, Label(LabelAt(offset, n))]
  }

  function Dumped(data: seq<byte>, offset: u64, len: nat, format: byte): seq<Token>
    requires len <= |data|
  {
    if !ValidFormat(format) then []
    else
      var items := ItemsOf(data, len, format);
      Emitted(items, offset, |items|) + [Newline]
  }

  /** hexdump: nothing in any format but bytes (1) and four-byte words (4). */
  method Dump(data: seq<byte>, offset: u64, len: nat, format: byte) returns (out: seq<Token>)
    requires len <= |data|
    ensures out == Dumped(data, offset, len, format)
  {
    if format != 1 && format != 4 {
      return [];
    }
    var n := len;
    if format == 4 {
      n := n / 4;
    }
    ghost var items := ItemsOf(data, len, format);
    var row := offset as int;
    out := [Label(offset)];
    for i := 0 to n
      invariant n == |items|
      invariant i < n ==> row == LabelAt(offset, i)
      invariant out == Emitted(items, offset, i)
    {
      out := out + [Item(if format == 1 then data[i] as int else Dword(data, 4 * i))];
      row, out := EndItem(items, offset, i, n, row, out);
    }
    out := out + [Newline];
  }

  method EndItem(ghost items: seq<int>, ghost offset: u64, i: nat, n: nat, row: int, out: seq<Token>)
    returns (row': int, out': seq<Token>)
    requires i < n == |items| && row == LabelAt(offset, i)
    requires out == Emitted(items, offset, i) + [Item(items[i])]
    ensures out' == Emitted(items, offset, i + 1) && (i + 1 < n ==> row' == LabelAt(offset, i + 1))
  {
    LabelSteps(offset, i);
    row', out' := row, out;
    if i % 5 == 4 {
      if i == n - 1 {
        out' := out + [Newline];
      } else {
        row' := (row + 20) % WRAP;
        out' := out + [Newline, Label(row')];
      }
    }
  }

  /** A reader's view: the row label, the place in the row, the pairs so far. */
  datatype View = View(row: int, place: nat, pairs: seq<(int, int)>)

  /** Each item is width bytes after the one before it. */
  function Seen(v: View, t: Token, width: nat): View {
    match t
    case Label(a) => View(a, 0, v.pairs)
    case Item(x) => View(v.row, v.place + 1, v.pairs + [(v.row + width * v.place, x)])
    case Newline => v
  }

  function ReadBack(out: seq<Token>, width: nat): View
    decreases |out|
  {
    if out == [] then View(0, 0, [])
    else Seen(ReadBack(out[..|out| - 1], width), out[|out| - 1], width)
  }

  function ShownAt(offset: u64, width: nat, i: nat): int {
    LabelAt(offset, i) + width * (i % 5)
  }

  function Pairs(items: seq<int>, offset: u64, width: nat, n: nat): seq<(int, int)>
    requires n <= |items|
  {
    seq(n, i requires 0 <= i < n => (ShownAt(offset, width, i), items[i]))
  }

  lemma ReadOne(out: seq<Token>, t: Token, width: nat)
    ensures ReadBack(out + [t], width) == Seen(ReadBack(out, width), t, width)
  {
    assert (out + [t])[..|out|] == out;
  }

  /** The reader's view after n items. */
  function ViewAfter(items: seq<int>, offset: u64, n: nat, width: nat): View
    requires n <= |items|
  {
    if n == 0 then View(offset, 0, [])
    else if EndsRow(n - 1) && n < |items| then View(LabelAt(offset, n), 0, Pairs(items, offset, width, n))
    else View(LabelAt(offset, n - 1), (n - 1) % 5 + 1, Pairs(items, offset, width, n))
  }

  lemma BeforeItem(items: seq<int>, offset: u64, n: nat, width: nat)
    requires n < |items|
    ensures ViewAfter(items, offset, n, width) == View(LabelAt(offset, n), n % 5, Pairs(items, offset, width, n))
  {
    if n > 0 { LabelSteps(offset, n - 1); }
  }

  lemma SeenItem(items: seq<int>, offset: u64, n: nat, width: nat)
    requires n < |items|
    ensures Seen(ViewAfter(items, offset, n, width), Item(items[n]), width) ==
            View(LabelAt(offset, n), n % 5 + 1, Pairs(items, offset, width, n + 1))
  {
    BeforeItem(items, offset, n, width);
    assert Pairs(items, offset, width, n + 1) ==
           Pairs(items, offset, width, n) + [(ShownAt(offset, width, n), items[n])];
  }

  lemma ReadRowEnd(out: seq<Token>, row: int, width: nat)
    ensures ReadBack(out + [Newline, Label(row)], width) == View(row, 0, ReadBack(out, width).pairs)
    ensures ReadBack(out + [Newline], width) == ReadBack(out, width)
  {
    assert out + [Newline, Label(row)] == out + [Newline] + [Label(row)];
    ReadOne(out, Newline, width);
    ReadOne(out + [Newline], Label(row), width);
  }

  /** Every item appears once, in order, at most five to a row; the i-th is read
      in place i % 5 of a row labelled offset + 20 * (i / 5). */
  lemma {:induction false} ReadEmitted(items: seq<int>, offset: u64, n: nat, width: nat)
    requires n <= |items|
    ensures ReadBack(Emitted(items, offset, n), width) == ViewAfter(items, offset, n, width)
  {
    if n == 0 {
      ReadOne([], Label(offset), width);
      assert [] + [Label(offset)] == [Label(offset)];
    } else {
      var before := Emitted(items, offset, n - 1);
      var with := before + [Item(items[n - 1])];
      ReadEmitted(items, offset, n - 1, width);
      ReadOne(before, Item(items[n - 1]), width);
      SeenItem(items, offset, n - 1, width);
      ReadRowEnd(with, LabelAt(offset, n), width);
      assert with + [] == with;
    }
  }

  lemma ReadDumped(data: seq<byte>, offset: u64, len: nat, format: byte, width: nat)
    requires len <= |data| && ValidFormat(format)
    ensures ReadBack(Dumped(data, offset, len, format), width).pairs ==
            Pairs(ItemsOf(data, len, format), offset, width, Count(len, format))
  {
    var items := ItemsOf(data, len, format);
    ReadEmitted(items, offset, |items|, width);
    ReadOne(Emitted(items, offset, |items|), Newline, width);
  }

  /** The number whose bytes these are, the lowest first. */
  function LittleEndian(bytes: seq<byte>): int {
    if bytes == [] then 0 else bytes[0] as int + 256 * LittleEndian(bytes[1..])
  }

  lemma DwordIs(data: seq<byte>, k: nat)
    requires k + 4 <= |data|
    ensures Dword(data, k) == LittleEndian(data[k..k + 4])
  {
    var b := data[k..k + 4];
    assert b[1..][1..] == b[2..] && b[2..][1..] == b[3..] && b[3..][1..] == [];
    assert LittleEndian(b[3..]) == b[3] as int;
    assert LittleEndian(b[2..]) == b[2] as int + 256 * LittleEndian(b[3..]);
    assert LittleEndian(b[1..]) == b[1] as int + 256 * LittleEndian(b[2..]);
  }

  lemma WordsLabelled(offset: u64, i: nat)
    requires offset + 4 * i < WRAP
    ensures ShownAt(offset, 4, i) == offset + 4 * i
  {
    assert i == 5 * (i / 5) + i % 5;
    assert LabelAt(offset, i) == offset + 20 * (i / 5);
  }

  /** In format 4 the map from addresses to words is read back from the rows;
      a rest of fewer than four bytes is not shown. */
  lemma WordsReadBack(data: seq<byte>, offset: u64, len: nat)
    requires len <= |data| && offset + len <= WRAP
    ensures ReadBack(Dumped(data, offset, len, 4), 4).pairs ==
            seq(len / 4, i requires 0 <= i < len / 4 => (offset + 4 * i, LittleEndian(data[4 * i..4 * i + 4])))
  {
    ReadDumped(data, offset, len, 4, 4);
    forall i: nat | i < len / 4 ensures ShownAt(offset, 4, i) == offset + 4 * i { WordsLabelled(offset, i); }
    forall i: nat | i < len / 4 ensures Dword(data, 4 * i) == LittleEndian(data[4 * i..4 * i + 4]) {
      DwordIs(data, 4 * i);
    }
  }

  /** The bytes at their addresses. */
  function BytesAt(data: seq<byte>, offset: u64, len: nat): seq<(int, int)>
    requires len <= |data|
  {
    seq(len, i requires 0 <= i < len => (offset + i, data[i] as int))
  }

  lemma OneRow(data: seq<byte>, offset: u64, len: nat)
    requires len <= |data| && len <= 5
    ensures Pairs(ItemsOf(data, len, 1), offset, 1, len) == BytesAt(data, offset, len)
  {
    forall i: nat | i < len ensures ShownAt(offset, 1, i) == offset + i { InFirstRow(offset, i); }
  }

  lemma InFirstRow(offset: u64, i: nat)
    requires i < 5
    ensures LabelAt(offset, i) == offset && i % 5 == i
  {
    assert i / 5 == 0;
  }

  lemma SixthByte(data: seq<byte>, offset: u64, len: nat)
    requires 5 < len <= |data|
    ensures Pairs(ItemsOf(data, len, 1), offset, 1, len)[5] != BytesAt(data, offset, len)[5]
  {
    assert ShownAt(offset, 1, 5) == (offset + 20) % WRAP;
  }

  /** In format 1 the addresses are right exactly when there is only one row. */
  lemma BytesReadBackExactly(data: seq<byte>, offset: u64, len: nat)
    requires len <= |data|
    ensures ReadBack(Dumped(data, offset, len, 1), 1).pairs == BytesAt(data, offset, len) <==> len <= 5
  {
    ReadDumped(data, offset, len, 1, 1);
    if len <= 5 { OneRow(data, offset, len); } else { SixthByte(data, offset, len); }
  }

  // ---- the rows, one after the other ----

  function Items(xs: seq<int>): (ts: seq<Token>)
    ensures |ts| == |xs|
  {
    seq(|xs|, i requires 0 <= i < |xs| => Item(xs[i]))
  }

  /** A label, up to five items and a newline; a full last row gets a second
      newline; the label advances by 20, whatever the width of the items. */
  function Layout(items: seq<int>, offset: u64): seq<Token> {
    if |items| < 5 then [Label(offset)] + Items(items) + [Newline]
    else if |items| == 5 then [Label(offset)] + Items(items) + [Newline, Newline]
    else [Label(offset)] + Items(items[..5]) + [Newline] +
         Layout(items[5..], (offset + 20) % 0x1_0000_0000_0000_0000)
  }

  lemma LabelShifted(offset: u64, n: nat)
    ensures LabelAt((offset + 20) % WRAP, n) == LabelAt(offset, n + 5)
  {
    assert (n + 5) / 5 == n / 5 + 1;
    var q, d := (offset + 20) / WRAP, 20 * (n / 5);
    assert offset + 20 == WRAP * q + (offset + 20) % WRAP;
    WrapMore((offset + 20) % WRAP + d, q);
  }

  lemma WrapMore(x: int, q: int)
    ensures (x + WRAP * q) % WRAP == x % WRAP
  {
  }

  lemma {:induction false} WithinRow(items: seq<int>, offset: u64, n: nat)
    requires n <= |items| && n < 5
    ensures Emitted(items, offset, n) == [Label(offset)] + Items(items[..n])
  {
    if n > 0 {
      WithinRow(items, offset, n - 1);
      assert Items(items[..n]) == Items(items[..n - 1]) + [Item(items[n - 1])];
    }
  }

  lemma FirstRow(items: seq<int>, offset: u64)
    requires |items| >= 5
    ensures Emitted(items, offset, 5) ==
            [Label(offset)] + Items(items[..5]) +
            if |items| == 5 then [Newline] else [Newline, Label((offset + 20) % WRAP)]
  {
    WithinRow(items, offset, 4);
    assert Items(items[..5]) == Items(items[..4]) + [Item(items[4])];
    assert EndsRow(4) && LabelAt(offset, 5) == (offset + 20) % WRAP;
    EmittedNext(items, offset, 4);
  }

  /** What item n adds to the output. */
  function Added(items: seq<int>, offset: u64, n: nat): seq<Token>
    requires n < |items|
  {
    [Item(items[n])] +
    if !EndsRow(n) then [] else if n + 1 == |items| then [Newline] else [Newline, Label(LabelAt(offset, n + 1))]
  }

  lemma EmittedNext(items: seq<int>, offset: u64, n: nat)
    requires n < |items|
    ensures Emitted(items, offset, n + 1) == Emitted(items, offset, n) + Added(items, offset, n)
  {
  }

  lemma SameAdded(items: seq<int>, offset: u64, n: nat)
    requires n + 5 < |items|
    ensures Added(items[5..], (offset + 20) % WRAP, n) == Added(items, offset, n + 5)
  {
    LabelShifted(offset, n + 1);
    assert EndsRow(n + 5) == EndsRow(n);
  }

  /** Two outputs, one behind the other's first row, grow alike. */
  lemma BothGrow(first: seq<Token>, all0: seq<Token>, rest0: seq<Token>, all: seq<Token>, rest: seq<Token>,
                 more: seq<Token>)
    requires all0 == first + rest0 && all == all0 + more && rest == rest0 + more
    ensures all == first + rest
  {
  }

  function FirstFive(items: seq<int>, offset: u64): seq<Token>
    requires |items| >= 5
  {
    [Label(offset)] + Items(items[..5]) + [Newline]
  }

  lemma RowsStep(items: seq<int>, offset: u64, n: nat)
    requires |items| > 5 && n < |items| - 5
    requires Emitted(items, offset, n + 5) ==
             FirstFive(items, offset) + Emitted(items[5..], (offset + 20) % WRAP, n)
    ensures Emitted(items, offset, n + 6) ==
            FirstFive(items, offset) + Emitted(items[5..], (offset + 20) % WRAP, n + 1)
  {
    var rest, next: u64 := items[5..], (offset + 20) % WRAP;
    EmittedNext(items, offset, n + 5);
    EmittedNext(rest, next, n);
    SameAdded(items, offset, n);
    BothGrow(FirstFive(items, offset), Emitted(items, offset, n + 5), Emitted(rest, next, n),
             Emitted(items, offset, n + 6), Emitted(rest, next, n + 1), Added(items, offset, n + 5));
  }

  /** After the first row the rest is emitted as a dump of its own. */
  lemma {:induction false} RowsAfterFirst(items: seq<int>, offset: u64, n: nat)
    requires |items| > 5 && n <= |items| - 5
    ensures Emitted(items, offset, n + 5) ==
            FirstFive(items, offset) + Emitted(items[5..], (offset + 20) % WRAP, n)
  {
    if n == 0 {
      FirstRow(items, offset);
    } else {
      RowsAfterFirst(items, offset, n - 1);
      RowsStep(items, offset, n - 1);
    }
  }

  lemma {:induction false} EmittedLayout(items: seq<int>, offset: u64)
    ensures Emitted(items, offset, |items|) + [Newline] == Layout(items, offset)
    decreases |items|
  {
    if |items| < 5 {
      WithinRow(items, offset, |items|);
      assert items[..|items|] == items;
    } else if |items| == 5 {
      FirstRow(items, offset);
      assert items[..5] == items;
    } else {
      RowsAfterFirst(items, offset, |items| - 5);
      EmittedLayout(items[5..], (offset + 20) % WRAP);
    }
  }

  /** A dump in format 1 or 4 is laid out row by row; in any other it is empty. */
  lemma DumpedRows(data: seq<byte>, offset: u64, len: nat, format: byte)
    requires len <= |data|
    ensures format == 1 ==>
              Dumped(data, offset, len, format) ==
              Layout(seq(len, i requires 0 <= i < len => data[i] as int), offset)
    ensures format == 4 ==>
              Dumped(data, offset, len, format) ==
              Layout(seq(len / 4, i requires 0 <= i < len / 4 => LittleEndian(data[4 * i..4 * i + 4])), offset)
    ensures format !in {1, 4} ==> Dumped(data, offset, len, format) == []
  {
    if format == 1 {
      EmittedLayout(ItemsOf(data, len, format), offset);
      assert ItemsOf(data, len, format) == seq(len, i requires 0 <= i < len => data[i] as int);
    } else if format == 4 {
      EmittedLayout(ItemsOf(data, len, format), offset);
      var words := seq(len / 4, i requires 0 <= i < len / 4 => LittleEndian(data[4 * i..4 * i + 4]));
      forall i: nat | i < len / 4 ensures ItemsOf(data, len, format)[i] == words[i] { DwordIs(data, 4 * i); }
      assert ItemsOf(data, len, format) == words;
    }
  }
}
