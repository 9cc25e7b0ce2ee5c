/**
 The bitmap that indexes the ready queues (src/scheduler.c) and the search for
 its lowest bit (__rt_ffs in src/kservice.c).
 */
module ReadyBitmap {

  // ---------------------------------------------------------------- machine words

  predicate Bit(w: nat, i: nat)
    decreases i
  {
    if i == 0 then w % 2 == 1 else Bit(w / 2, i - 1)
  }

  /** w | 1 << i */
  function SetBit(w: nat, i: nat): nat
    decreases i
  {
    if i == 0 then w / 2 * 2 + 1 else w % 2 + 2 * SetBit(w / 2, i - 1)
  }

  /** w & ~(1 << i) */
  function ClearBit(w: nat, i: nat): nat
    decreases i
  {
    if i == 0 then w / 2 * 2 else w % 2 + 2 * ClearBit(w / 2, i - 1)
  }

  lemma {:induction false} SetBits(w: nat, i: nat, j: nat)
    ensures Bit(SetBit(w, i), j) <==> j == i || Bit(w, j)
    decreases i
  {
    if i > 0 && j > 0 {
      SetBits(w / 2, i - 1, j - 1);
    }
  }

  lemma {:induction false} ClearBits(w: nat, i: nat, j: nat)
    ensures Bit(ClearBit(w, i), j) <==> j != i && Bit(w, j)
    decreases i
  {
    if i > 0 && j > 0 {
      ClearBits(w / 2, i - 1, j - 1);
    }
  }

  function Pow2(k: nat): (r: nat)
    ensures r > 0
  {
    if k == 0 then 1 else 2 * Pow2(k - 1)
  }

  lemma {:induction false} Widths(w: nat, i: nat, k: nat)
    requires w < Pow2(k) && i < k
    ensures SetBit(w, i) < Pow2(k) && ClearBit(w, i) < Pow2(k)
    decreases k
  {
    if i > 0 {
      Widths(w / 2, i - 1, k - 1);
    }
  }

  lemma {:induction false} NoHighBits(w: nat, k: nat, i: nat)
    requires w < Pow2(k) && Bit(w, i)
    ensures i < k
    decreases k
  {
    if k == 0 {
      ZeroBits(i);
    } else if i > 0 {
      NoHighBits(w / 2, k - 1, i - 1);
    }
  }

  lemma {:induction false} ZeroBits(i: nat)
    ensures !Bit(0, i)
    decreases i
  {
    if i > 0 {
      ZeroBits(i - 1);
    }
  }

  /** A word that is not zero has a bit. */
  lemma {:induction false} SomeBit(w: nat) returns (i: nat)
    requires w > 0
    ensures Bit(w, i)
  {
    if w % 2 == 1 {
      i := 0;
    } else {
      var j := SomeBit(w / 2);
      i := j + 1;
    }
  }

  function Shr(w: nat, k: nat): nat
    decreases k
  {
    if k == 0 then w else Shr(w / 2, k - 1)
  }

  function Low(w: nat, k: nat): nat
    decreases k
  {
    if k == 0 then 0 else w % 2 + 2 * Low(w / 2, k - 1)
  }

  /** The low k bits of a word, and the rest. */
  lemma {:induction false} BitsApart(w: nat, k: nat, i: nat)
    ensures i >= k ==> Bit(w, i) == Bit(Shr(w, k), i - k)
    ensures i < k ==> Bit(w, i) == Bit(Low(w, k), i)
    decreases k
  {
    if k > 0 {
      assert Low(w, k) % 2 == w % 2 && Low(w, k) / 2 == Low(w / 2, k - 1);
      if i > 0 {
        BitsApart(w / 2, k - 1, i - 1);
      }
    }
  }

  lemma LowHalf(w: nat)
    ensures Low(w, 4) == w % 16 && Shr(w, 4) == w / 16
  {
    assert Low(w / 8, 1) == w / 8 % 2 && w / 2 / 2 / 2 == w / 8;
    assert Low(w / 4, 2) == w / 4 % 2 + 2 * Low(w / 8, 1) && w / 2 / 2 == w / 4;
    assert Low(w / 2, 3) == w / 2 % 2 + 2 * Low(w / 4, 2);
    assert Shr(w / 2, 3) == Shr(w / 4, 2) == Shr(w / 8, 1) == w / 16;
  }

  /** A byte of a word: bits 8 to 15 of it are bits 0 to 7 of w / 256. */
  lemma Byte(w: nat, i: nat)
    ensures i >= 8 ==> Bit(w, i) == Bit(w / 256, i - 8)
    ensures i < 8 ==> Bit(w, i) == Bit(w % 256, i)
  {
    LowHalf(w);
    LowHalf(w / 16);
    LowHalf(w % 256);
    LowHalf(w % 256 / 16);
    assert w / 16 / 16 == w / 256 && w % 256 / 16 == w / 16 % 16 && w % 256 % 16 == w % 16;
    hide Bit, Low, Shr;
    BitsApart(w, 4, i);
    BitsApart(w % 256, 4, i);
    if i >= 4 {
      BitsApart(w / 16, 4, i - 4);
      BitsApart(w % 256 / 16, 4, i - 4);
    }
  }

  // ---------------------------------------------------------------- __rt_ffs

  /**
   __lowest_bit_bitmap, row by row: the rows differ only in their first column,
   and row 0 has a zero there.
   */
  const COLUMN: seq<nat> := [0, 4, 5, 4, 6, 4, 5, 4, 7, 4, 5, 4, 6, 4, 5, 4]
  const ROW: seq<nat> := [0, 0, 1, 0, 2, 0, 1, 0, 3, 0, 1, 0, 2, 0, 1, 0]

  function Table(b: nat): nat
    requires b < 256
  {
    if b % 16 == 0 then COLUMN[b / 16] else ROW[b % 16]
  }

  function Ffs(value: nat): nat
    requires value < 0x1_0000_0000
  {
    if value == 0 then 0
    else if value % 0x100 != 0 then Table(value % 0x100) + 1
    else if value / 0x100 % 0x100 != 0 then Table(value / 0x100 % 0x100) + 9
    else if value / 0x1_0000 % 0x100 != 0 then Table(value / 0x1_0000 % 0x100) + 17
    else Table(value / 0x100_0000) + 25
  }

  /** Bit i is the lowest bit of w. */
  ghost predicate LowestBit(w: nat, i: nat) {
    Bit(w, i) && forall j: nat :: j < i ==> !Bit(w, j)
  }

  lemma NibbleLowest(b: nat)
    requires 0 < b < 16
    ensures LowestBit(b, ROW[b]) && ROW[b] < 4 && COLUMN[b] == ROW[b] + 4
  {
    assert Bit(b, 0) == (b % 2 == 1) && Bit(b, 1) == (b / 2 % 2 == 1);
    assert Bit(b, 2) == (b / 4 % 2 == 1) by { assert Bit(b / 2, 1) == (b / 2 / 2 % 2 == 1); }
    assert Bit(b, 3) == (b / 8 % 2 == 1) by { assert Bit(b / 2, 2) == Bit(b / 4, 1) == (b / 8 % 2 == 1); }
  }

  /** The table holds the number of the lowest bit of every byte. */
  lemma TableLowest(b: nat)
    requires 0 < b < 256
    ensures LowestBit(b, Table(b)) && Table(b) < 8
  {
    LowHalf(b);
    hide Bit, Low, Shr;
    forall j: nat ensures j >= 4 ==> Bit(b, j) == Bit(b / 16, j - 4)
      ensures j < 4 ==> Bit(b, j) == Bit(b % 16, j)
    {
      BitsApart(b, 4, j);
    }
    if b % 16 != 0 {
      NibbleLowest(b % 16);
    } else {
      NibbleLowest(b / 16);
      forall j: nat | j < 4 ensures !Bit(b, j) {
        ZeroBits(j);
      }
    }
  }

  /** Byte k / 8 of the word w is b, and no lower bit of w is set. */
  ghost predicate BytesUpTo(w: nat, b: nat, k: nat) {
    && (forall i: nat :: k <= i < k + 8 ==> Bit(w, i) == Bit(b, i - k))
    && (forall i: nat :: i < k ==> !Bit(w, i))
  }

  /** The lowest bit of that byte is then the lowest bit of the word. */
  lemma LowestFrom(w: nat, b: nat, k: nat)
    requires 0 < b < 256 && BytesUpTo(w, b, k)
    ensures LowestBit(w, Table(b) + k) && Table(b) < 8
  {
    TableLowest(b);
    hide Bit, Table;
    assert Bit(w, Table(b) + k);
  }

  /** Past a byte of zeros. */
  lemma NextByte(w: nat, v: nat, k: nat)
    requires BytesUpTo(w, v % 256, k) && v % 256 == 0
    requires forall i: nat :: i >= k ==> Bit(w, i) == Bit(v, i - k)
    ensures BytesUpTo(w, v / 256 % 256, k + 8)
    ensures forall i: nat :: i >= k + 8 ==> Bit(w, i) == Bit(v / 256, i - k - 8)
  {
    hide Bit;
    forall i: nat | i < k + 8 ensures !Bit(w, i) {
      if i >= k {
        ZeroBits(i - k);
      }
    }
    forall i: nat | i >= k + 8
      ensures Bit(w, i) == Bit(v / 256, i - k - 8) && (i < k + 16 ==> Bit(w, i) == Bit(v / 256 % 256, i - k - 8))
    {
      Byte(v, i - k);
      Byte(v / 256, i - k - 8);
    }
  }

  /** __rt_ffs returns one more than the number of the lowest bit, or zero if there is none. */
  lemma FfsIs(value: nat)
    requires value < 0x1_0000_0000
    ensures value == 0 <==> Ffs(value) == 0
    ensures value > 0 ==> 1 <= Ffs(value) <= 32 && LowestBit(value, Ffs(value) - 1)
  {
    hide Bit, Table, LowestBit, BytesUpTo;
    var v1, v2, v3 := value / 0x100, value / 0x1_0000, value / 0x100_0000;
    assert v1 / 256 == v2 && v2 / 256 == v3 && v3 % 256 == v3;
    FirstByte(value);
    if value == 0 {
    } else if value % 256 != 0 {
      LowestFrom(value, value % 256, 0);
    } else {
      NextByte(value, value, 0);
      if v1 % 256 != 0 {
        LowestFrom(value, v1 % 256, 8);
      } else {
        NextByte(value, v1, 8);
        if v2 % 256 != 0 {
          LowestFrom(value, v2 % 256, 16);
        } else {
          NextByte(value, v2, 16);
          LowestFrom(value, v3, 24);
        }
      }
    }
  }

  lemma FirstByte(w: nat)
    ensures BytesUpTo(w, w % 256, 0)
  {
    forall i: nat | i < 8 ensures Bit(w, i) == Bit(w % 256, i - 0) {
      Byte(w, i);
    }
  }

  // ---------------------------------------------------------------- the index

  /** rt_thread_ready_priority_group, and with more than 32 priorities rt_thread_ready_table. */
  datatype Index = Index(max: nat, group: nat, table: seq<nat>)

  predicate Wide(max: nat) {
    max > 32
  }

  /** The words have their widths, and a bit of the group tells that a byte of the table is not zero. */
  ghost predicate IndexOk(x: Index) {
    && 0 < x.max <= 256 && x.group < 0x1_0000_0000 && |x.table| == 32
    && (Wide(x.max) ==> forall n: nat :: n < 32 ==> x.table[n] < 256 && (Bit(x.group, n) <==> x.table[n] != 0))
  }

  predicate Marked(x: Index, p: nat)
    requires |x.table| == 32 && p < 256
  {
    if Wide(x.max) then Bit(x.table[p / 8], p % 8) else Bit(x.group, p)
  }

  /** The masks of rt_schedule_insert_thread. */
  function Mark(x: Index, p: nat): Index
    requires |x.table| == 32 && p < 256
  {
    if Wide(x.max) then
      x.(table := x.table[p / 8 := SetBit(x.table[p / 8], p % 8)], group := SetBit(x.group, p / 8))
    else
      x.(group := SetBit(x.group, p))
  }

  /** The masks of rt_schedule_remove_thread for a queue that is empty. */
  function Unmark(x: Index, p: nat): Index
    requires |x.table| == 32 && p < 256
  {
    if Wide(x.max) then
      var b := ClearBit(x.table[p / 8], p % 8);
      x.(table := x.table[p / 8 := b], group := if b == 0 then ClearBit(x.group, p / 8) else x.group)
    else
      x.(group := ClearBit(x.group, p))
  }

  /** The search of _get_highest_priority_thread. */
  function Highest(x: Index): int
    requires x.group < 0x1_0000_0000
  {
    if Wide(x.max) then
      var n := Ffs(x.group) - 1;
      if 0 <= n < |x.table| && x.table[n] < 0x1_0000_0000 then n * 8 + Ffs(x.table[n]) - 1 else -1
    else
      Ffs(x.group) - 1
  }

  lemma WordWidths(w: nat, i: nat)
    ensures w < 0x1_0000_0000 && i < 32 ==> SetBit(w, i) < 0x1_0000_0000 && ClearBit(w, i) < 0x1_0000_0000
    ensures w < 256 && i < 8 ==> SetBit(w, i) < 256 && ClearBit(w, i) < 256
  {
    Powers();
    if w < Pow2(32) && i < 32 {
      Widths(w, i, 32);
    }
    if w < Pow2(8) && i < 8 {
      Widths(w, i, 8);
    }
  }

  lemma Powers()
    ensures Pow2(8) == 256 && Pow2(32) == 0x1_0000_0000
  {
    Powers8(0);
    Powers8(8);
    Powers8(16);
    Powers8(24);
  }

  lemma Powers8(k: nat)
    ensures Pow2(k + 8) == 256 * Pow2(k)
  {
    assert Pow2(k + 8) == 2 * Pow2(k + 7) == 4 * Pow2(k + 6) == 8 * Pow2(k + 5);
    assert Pow2(k + 5) == 2 * Pow2(k + 4) == 4 * Pow2(k + 3) == 8 * Pow2(k + 2);
    assert Pow2(k + 2) == 2 * Pow2(k + 1) == 4 * Pow2(k);
  }

  lemma NotZero(w: nat, i: nat)
    requires Bit(w, i)
    ensures w != 0
  {
  }

  lemma MarkOk(x: Index, p: nat, q: nat)
    requires IndexOk(x) && p < x.max && q < 256
    ensures IndexOk(Mark(x, p)) && (Marked(Mark(x, p), q) <==> q == p || Marked(x, q))
  {
    hide Bit, SetBit;
    if Wide(x.max) {
      var n, i := p / 8, p % 8;
      SetBits(x.table[n], i, q % 8);
      SetBits(x.table[n], i, i);
      NotZero(SetBit(x.table[n], i), i);
      WordWidths(x.table[n], i);
      WordWidths(x.group, n);
      forall m: nat | m < 32 ensures Bit(SetBit(x.group, n), m) <==> m == n || Bit(x.group, m) {
        SetBits(x.group, n, m);
      }
      assert p / 8 == q / 8 && p % 8 == q % 8 ==> p == q;
    } else {
      SetBits(x.group, p, q);
      WordWidths(x.group, p);
    }
  }

  lemma UnmarkOk(x: Index, p: nat, q: nat)
    requires IndexOk(x) && p < x.max && q < 256
    ensures IndexOk(Unmark(x, p)) && (Marked(Unmark(x, p), q) <==> q != p && Marked(x, q))
  {
    hide Bit, ClearBit;
    if Wide(x.max) {
      var n, i := p / 8, p % 8;
      ClearBits(x.table[n], i, q % 8);
      WordWidths(x.table[n], i);
      WordWidths(x.group, n);
      var b := ClearBit(x.table[n], i);
      if b != 0 {
        var j := SomeBit(b);
        ClearBits(x.table[n], i, j);
        NotZero(x.table[n], j);
      }
      forall m: nat | m < 32 ensures Bit(ClearBit(x.group, n), m) <==> m != n && Bit(x.group, m) {
        ClearBits(x.group, n, m);
      }
      assert p / 8 == q / 8 && p % 8 == q % 8 ==> p == q;
    } else {
      ClearBits(x.group, p, q);
      WordWidths(x.group, p);
    }
  }

  /** Without a bit in the group nothing is marked; otherwise the two searches find the lowest mark. */
  lemma HighestOk(x: Index)
    requires IndexOk(x)
    ensures x.group == 0 ==> forall q: nat :: q < 256 ==> !Marked(x, q)
    ensures x.group != 0 ==>
              0 <= Highest(x) < 256 && Marked(x, Highest(x)) && forall q: nat :: q < Highest(x) ==> !Marked(x, q)
  {
    hide Bit, Ffs;
    if x.group == 0 {
      forall q: nat | q < 256 ensures !Marked(x, q) {
        ZeroBits(q);
        ZeroBits(q / 8);
        ZeroBits(q % 8);
      }
    } else {
      FfsIs(x.group);
      if Wide(x.max) {
        HighestWide(x, Ffs(x.group) - 1);
      }
    }
  }

  lemma HighestWide(x: Index, n: nat)
    requires IndexOk(x) && Wide(x.max) && n < 32 && LowestBit(x.group, n)
    ensures Ffs(x.table[n]) >= 1 && LowestBit(x.table[n], Ffs(x.table[n]) - 1) && Ffs(x.table[n]) <= 8
    ensures forall q: nat :: q < n * 8 + Ffs(x.table[n]) - 1 ==> !Marked(x, q)
  {
    hide Bit, Ffs;
    FfsIs(x.table[n]);
    var i := Ffs(x.table[n]) - 1;
    Powers();
    NoHighBits(x.table[n], 8, i);
    forall q: nat | q < n * 8 + i ensures !Marked(x, q) {
      if q / 8 < n {
        assert !Bit(x.group, q / 8);
        ZeroBits(q % 8);
      } else {
        assert q / 8 == n && q % 8 < i;
      }
    }
  }
}
