/**
 The size classes of the slab allocator (zoneindex in src/slab.c).
 */
module ZoneIndex {

  const NZONES: int := 72
  const LIMIT: int := 16384  // sizes below this have a class

  datatype Class = Class(index: int, chunk: int)

  /** Sizes from lo on round to q cells of this many bytes; their indices are q plus an offset. */
  datatype Band = Band(cell: int, offset: int)

  function BandOf(n: int): Band {
    if n < 128 then Band(8, -1)
    else if n < 256 then Band(16, 7)
    else if n < 512 then Band(32, 15)
    else if n < 1024 then Band(64, 23)
    else if n < 2048 then Band(128, 31)
    else if n < 4096 then Band(256, 39)
    else if n < 8192 then Band(512, 47)
    else Band(1024, 55)
  }

  /** The number of cells that hold n bytes. */
  function Cells(n: int): int {
    if n < 128 then (n + 7) / 8
    else if n < 256 then (n + 15) / 16
    else if n < 512 then (n + 31) / 32
    else if n < 1024 then (n + 63) / 64
    else if n < 2048 then (n + 127) / 128
    else if n < 4096 then (n + 255) / 256
    else if n < 8192 then (n + 511) / 512
    else (n + 1023) / 1024
  }

  /** zoneindex: the index of the zones for n bytes, and the size of their chunks. */
  function ClassOf(n: int): Class {
    Class(Cells(n) + BandOf(n).offset, Cells(n) * BandOf(n).cell)
  }

  /** The chunk size of an index. */
  function ChunkOf(i: int): int {
    if i < 16 then (i + 1) * 8
    else if i < 24 then (i - 7) * 16
    else if i < 32 then (i - 15) * 32
    else if i < 40 then (i - 23) * 64
    else if i < 48 then (i - 31) * 128
    else if i < 56 then (i - 39) * 256
    else if i < 64 then (i - 47) * 512
    else (i - 55) * 1024
  }

  lemma CellsFit(n: int)
    requires 0 < n < LIMIT
    ensures n <= Cells(n) * BandOf(n).cell < n + BandOf(n).cell
    ensures n < 128 ==> 1 <= Cells(n) <= 16
    ensures n >= 128 ==> 9 <= Cells(n) <= 16 || (Cells(n) == 8 && n == 8 * BandOf(n).cell)
  {
  }

  /**
   Every size gets a chunk that holds it, with less than an eighth of it (or eight bytes) to spare, and a valid index.
   */
  lemma ClassFits(n: int)
    requires 0 < n < LIMIT
    ensures var c := ClassOf(n);
            && n <= c.chunk <= LIMIT && (c.chunk < n + 8 || 8 * (c.chunk - n) < n) && c.chunk % 8 == 0
            && 0 <= c.index < NZONES && ChunkOf(c.index) == c.chunk
  {
    hide Cells;
    CellsFit(n);
  }

  /** The chunk sizes grow with the index. */
  lemma ChunksGrow(i: int, j: int)
    requires 0 <= i < j < NZONES
    ensures 8 <= ChunkOf(i) < ChunkOf(j) <= LIMIT
  {
  }

  /** Two sizes share an index if and only if they round to the same chunk. */
  lemma SameIndex(m: int, n: int)
    requires 0 < m < LIMIT && 0 < n < LIMIT
    ensures ClassOf(m).index == ClassOf(n).index <==> ClassOf(m).chunk == ClassOf(n).chunk
  {
    hide ClassOf, ChunkOf;
    ClassFits(m);
    ClassFits(n);
    var i, j := ClassOf(m).index, ClassOf(n).index;
    if i < j {
      ChunksGrow(i, j);
    } else if j < i {
      ChunksGrow(j, i);
    }
  }
}
