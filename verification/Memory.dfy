/** The tracee's memory as the debugger sees it: bytes at addresses, some of
    them unmapped, moved eight at a time by PEEKTEXT, POKETEXT and by the
    writes to /proc/pid/mem. */
module Memory {

  datatype Option<+T> = None | Some(value: T)

  newtype byte = x: int | 0 <= x < 256

  type u64 = x: int | 0 <= x < 0x1_0000_0000_0000_0000

  /** The eight bytes of a uint64_t, lowest address first. */
  type Word = w: seq<byte> | |w| == 8 witness [0, 0, 0, 0, 0, 0, 0, 0]

  /** The mapped bytes. */
  type Mem = map<int, byte>

  /** What a failing PEEKTEXT returns: -1. */
  const PEEK_ERROR: Word := [255, 255, 255, 255, 255, 255, 255, 255]

  /** The uint64_t that a little-endian machine reads from these bytes. */
  function Value(w: Word): int {
    w[0] as int + 0x100 * w[1] as int + 0x1_0000 * w[2] as int + 0x100_0000 * w[3] as int +
    0x1_0000_0000 * (w[4] as int + 0x100 * w[5] as int + 0x1_0000 * w[6] as int + 0x100_0000 * w[7] as int)
  }

  /** All eight bytes from a on are mapped. */
  predicate Mapped(m: Mem, a: int) {
    forall k | a <= k < a + 8 :: k in m
  }

  function ReadWord(m: Mem, a: int): (w: Word)
    ensures Mapped(m, a) ==> forall k | a <= k < a + 8 :: w[k - a] == m[k]
    ensures !Mapped(m, a) ==> w == PEEK_ERROR
  {
    if Mapped(m, a) then seq(8, i requires 0 <= i < 8 && a + i in m => m[a + i]) else PEEK_ERROR
  }

  /** The bytes of w from a on, mapped or not. */
  function StoreWord(m: Mem, a: int, w: Word): (m': Mem)
    ensures forall k :: k in m' <==> k in m || a <= k < a + 8
    ensures forall k | k in m' :: m'[k] == if a <= k < a + 8 then w[k - a] else m[k]
  {
    map k | k in m.Keys + {a, a + 1, a + 2, a + 3, a + 4, a + 5, a + 6, a + 7} ::
      if a <= k < a + 8 then w[k - a] else m[k]
  }

  /** A write that would touch an unmapped byte fails and changes nothing. */
  function WriteWord(m: Mem, a: int, w: Word): (m': Mem)
    ensures m'.Keys == m.Keys
    ensures forall k | k in m ::
      m'[k] == if Mapped(m, a) && a <= k < a + 8 then w[k - a] else m[k]
  {
    if Mapped(m, a) then map k | k in m :: if a <= k < a + 8 then w[k - a] else m[k] else m
  }

  /** Two eight-byte ranges do not overlap. */
  predicate Apart(a: int, b: int) {
    a + 8 <= b || b + 8 <= a
  }

  /** Byte k is mapped and is the one that w, stored at a, puts there. */
  predicate ByteIs(m: Mem, a: int, w: Word, k: int)
    requires a <= k < a + 8
  {
    k in m && m[k] == w[k - a]
  }

  /** The eight bytes from a on are mapped and are those of w. */
  ghost predicate Holds(m: Mem, a: int, w: Word) {
    forall k | a <= k < a + 8 :: ByteIs(m, a, w, k)
  }

  /** A word is known from its bytes. */
  lemma ReadIs(m: Mem, a: int, w: Word)
    requires Holds(m, a, w)
    ensures Mapped(m, a) && ReadWord(m, a) == w
  {
    forall k | a <= k < a + 8 ensures k in m { assert ByteIs(m, a, w, k); }
    var r := ReadWord(m, a);
    forall i | 0 <= i < 8 ensures r[i] == w[i] {
      assert ByteIs(m, a, w, a + i);
      assert r[a + i - a] == m[a + i];
    }
  }

  lemma HoldsRead(m: Mem, a: int)
    requires Mapped(m, a)
    ensures Holds(m, a, ReadWord(m, a))
  {
    var w := ReadWord(m, a);
    forall k | a <= k < a + 8 ensures ByteIs(m, a, w, k) { assert w[k - a] == m[k]; }
  }

  lemma HoldsWritten(m: Mem, a: int, w: Word)
    requires Mapped(m, a)
    ensures Holds(WriteWord(m, a, w), a, w)
  {
    var m' := WriteWord(m, a, w);
    forall k | a <= k < a + 8 ensures ByteIs(m', a, w, k) { }
  }

  /** A word stays where its bytes stay. */
  lemma HoldsKept(m: Mem, m': Mem, a: int, w: Word)
    requires Holds(m, a, w)
    requires forall k | a <= k < a + 8 && k in m :: k in m' && m'[k] == m[k]
    ensures Holds(m', a, w)
  {
    forall k | a <= k < a + 8 ensures ByteIs(m', a, w, k) { assert ByteIs(m, a, w, k); }
  }

  lemma HoldsElsewhere(m: Mem, a: int, w: Word, b: int, v: Word)
    requires Holds(m, b, v) && Apart(a, b)
    ensures Holds(WriteWord(m, a, w), b, v)
  {
    HoldsKept(m, WriteWord(m, a, w), b, v);
  }

  lemma ReadBack(m: Mem, a: int, w: Word)
    requires Mapped(m, a)
    ensures ReadWord(WriteWord(m, a, w), a) == w
  {
    HoldsWritten(m, a, w);
    ReadIs(WriteWord(m, a, w), a, w);
  }

  /** Writing back what was read undoes any write at that address. */
  lemma WriteUndone(m: Mem, a: int, w: Word)
    ensures WriteWord(WriteWord(m, a, w), a, ReadWord(m, a)) == m
  {
    var m1 := WriteWord(m, a, w);
    assert Mapped(m1, a) == Mapped(m, a);
    var m2 := WriteWord(m1, a, ReadWord(m, a));
    forall k | k in m ensures m2[k] == m[k] { }
  }
}
