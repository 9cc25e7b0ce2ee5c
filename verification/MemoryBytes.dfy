/** The contents of memory, and what copying a block from one place to another does to them. */
module MemoryBytes {

  type Bytes = int -> int

  /** rt_memcpy of n bytes. */
  function Copied(m: Bytes, from: int, to: int, n: int): Bytes {
    i => if to <= i < to + n then m(from + i - to) else m(i)
  }

  /** The n bytes from `at` on are the same in both memories. */
  ghost predicate SameBytes(m: Bytes, m': Bytes, at: int, n: int) {
    forall i :: at <= i < at + n ==> m'(i) == m(i)
  }

  /** The n bytes from `to` on in m' are those from `from` on in m. */
  ghost predicate CopyOf(m: Bytes, from: int, m': Bytes, to: int, n: int) {
    forall i :: to <= i < to + n ==> m'(i) == m(from + i - to)
  }

  /** The copy arrives, although headers are written before (from m to m1) and after it (to m2). */
  lemma CopyArrives(m: Bytes, m1: Bytes, m2: Bytes, from: int, to: int, n: int)
    requires SameBytes(m, m1, from, n) && SameBytes(Copied(m1, from, to, n), m2, to, n)
    ensures CopyOf(m, from, m2, to, n)
  {
  }

  /** Bytes elsewhere are spared. */
  lemma CopySpares(m: Bytes, m1: Bytes, m2: Bytes, from: int, to: int, n: int, at: int, len: int)
    requires SameBytes(m, m1, at, len) && SameBytes(Copied(m1, from, to, n), m2, at, len)
    requires at + len <= to || to + n <= at
    ensures SameBytes(m, m2, at, len)
  {
  }

  lemma FewerBytes(m: Bytes, m': Bytes, at: int, n: int, k: int)
    requires SameBytes(m, m', at, n) && k <= n
    ensures SameBytes(m, m', at, k)
  {
  }
}
