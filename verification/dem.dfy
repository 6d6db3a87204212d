/** The types and constants of the dem package that the builder shares:
    grid and tile dimensions, tiles, index records, and the index
    arithmetic the splitter and the writer rely on. */
module Dem {
  import opened Base

  /** The package constants HgtSize (N, samples per grid side),
      HgtSplitParts (S, tiles per grid side) and TileSize (T, samples per
      tile side). Their values are not fixed here; every result holds for
      any dimensions that satisfy `Valid`. */
  datatype Dims = Dims(hgtSize: nat, splitParts: nat, tileSize: nat) {

    /** Neighbouring tiles share one row or column, so S tiles of T
        samples cover N = S*(T-1)+1 samples. */
    predicate Valid() {
      splitParts >= 1 && tileSize >= 2 && hgtSize == Cover(splitParts, tileSize)
    }

    /** Number of bytes in one raw grid: N*N samples of two bytes. */
    function GridBytes(): (n: nat) { hgtSize * hgtSize * 2 }

    /** Number of bytes in one raw tile: T*T samples of two bytes. */
    function TileBytes(): (n: nat) { tileSize * tileSize * 2 }

    /** The index covers 360 degrees of longitude and 180 of latitude,
        each split into S tiles. */
    function Width(): (n: nat) { 360 * splitParts }

    function Height(): (n: nat) { 180 * splitParts }

    /** Number of tiles one grid is split into. */
    function TileCount(): (n: nat) { splitParts * splitParts }
  }

  /** Samples covered by s tiles of t samples that overlap by one. */
  function Cover(s: nat, t: nat): (n: int) { s * (t - 1) + 1 }

  /** Global tile coordinates in split-grid space. */
  datatype TileIndex = TileIndex(x: int, y: int)

  /** A tile as the splitter hands it to the writer. */
  datatype TileRaw = TileRaw(index: TileIndex, data: seq<byte>)

  /** Location of one compressed tile in the data file; the zero record
      stands for an absent tile. */
  datatype Record = Record(offset: int, length: int)

  const Absent := Record(0, 0)

  /** Non-negative multiples keep their order. */
  lemma MulLe(a: int, b: int, k: nat)
    requires a <= b
    ensures a * k <= b * k
  {
    assert b * k - a * k == (b - a) * k;
  }

  lemma Distrib(a: int, b: int, k: int)
    ensures (a + b) * k == a * k + b * k
  {
  }

  /** In a row-major square of side `side`, sample (row, col) lies inside
      the buffer, byte `b` included. */
  lemma SampleOffsetBound(side: nat, row: nat, col: nat, b: nat)
    requires row < side && col < side && b < 2
    ensures (row * side + col) * 2 + b < side * side * 2
  {
    MulLe(row, side - 1, side);
    assert (side - 1) * side + side == side * side;
  }

  /** Byte `b` (0 or 1) of sample (row, col) of a row-major square buffer
      of side `side`. */
  function SampleByte(buf: seq<byte>, side: nat, row: nat, col: nat, b: nat): (v: byte)
    requires row < side && col < side && b < 2 && |buf| == side * side * 2
  {
    SampleOffsetBound(side, row, col, b);
    buf[(row * side + col) * 2 + b]
  }

  /** Quotient and remainder recompose the dividend. */
  lemma DivMod(n: int, k: int)
    requires k > 0
    ensures n == (n / k) * k + n % k && 0 <= n % k < k
  {
  }

  /** Euclidean division is determined by any quotient/remainder pair. */
  lemma DivModUnique(n: int, k: int, q: int, r: int)
    requires k > 0 && 0 <= r < k && n == q * k + r
    ensures n / k == q && n % k == r
  {
    var q', r' := n / k, n % k;
    assert n == q' * k + r';
    if q' < q {
      MulLe(q' + 1, q, k);
      assert false;
    } else if q < q' {
      MulLe(q + 1, q', k);
      assert false;
    }
  }

  /** Slot i of an S*S array laid out row-major is (i % S, i / S). */
  lemma SlotSplit(s: nat, i: int)
    requires 0 <= i < s * s
    ensures 0 <= i % s < s && 0 <= i / s < s && i == (i / s) * s + i % s
  {
    if i / s >= s {
      MulLe(s, i / s, s);
      assert false;
    }
  }

  /** Row-major slot dy*S + dx lies in the S*S array and decomposes back
      into (dx, dy). */
  lemma SlotJoin(s: nat, dx: nat, dy: nat)
    requires dx < s && dy < s
    ensures 0 <= dy * s + dx < s * s
    ensures (dy * s + dx) % s == dx && (dy * s + dx) / s == dy
  {
    MulLe(dy, s - 1, s);
    MulLe(0, dy, s);
    DivModUnique(dy * s + dx, s, dy, dx);
  }
}
