/** Cutting one grid cell's N x N samples into S x S tiles of T x T
    samples (splitDem). Tile (dx, dy) of cell (lat, lon) gets global
    coordinates (lon*S + dx, lat*S + dy) and lands in slot dy*S + dx;
    neighbouring tiles share one row or column of samples. */
module TileSplit {
  import opened Base
  import opened Dem
  import opened HgtName

  /** The grid row that row `row` of the tiles in band dy reads: the first
      tile row is grid row N-1 - dy*(T-1), the rows after it go up the grid. */
  function GridRowOf(d: Dims, dy: int, row: int): (gridRow: int)
  {
    d.hgtSize - 1 - dy * (d.tileSize - 1) - row
  }

  /** The grid sample where row `row` of tile (dx, dy) starts. */
  function RowStart(d: Dims, dx: int, dy: int, row: int): (start: int)
  {
    GridRowOf(d, dy, row) * d.hgtSize + dx * (d.tileSize - 1)
  }

  /** With N = S*(T-1)+1, every row a tile reads is a grid row, and its T
      samples lie inside that row and inside the grid buffer. */
  lemma RowInGrid(d: Dims, dx: nat, dy: nat, row: nat)
    requires d.Valid() && dx < d.splitParts && dy < d.splitParts && row < d.tileSize
    ensures 0 <= GridRowOf(d, dy, row) < d.hgtSize
    ensures 0 <= dx * (d.tileSize - 1) && dx * (d.tileSize - 1) + d.tileSize <= d.hgtSize
    ensures 0 <= RowStart(d, dx, dy, row)
    ensures (RowStart(d, dx, dy, row) + d.tileSize) * 2 <= d.GridBytes()
  {
    var s, t, n := d.splitParts, d.tileSize, d.hgtSize;
    var band := dy * (t - 1);
    var col := dx * (t - 1);
    MulLe(dy, s - 1, t - 1);
    MulLe(dx, s - 1, t - 1);
    MulLe(0, dy, t - 1);
    MulLe(0, dx, t - 1);
    Distrib(s - 1, 1, t - 1);
    assert band <= n - 1 - (t - 1);
    assert col + t <= n;
    var gr := GridRowOf(d, dy, row);
    assert 0 <= gr < n;
    MulLe(gr + 1, n, n);
    MulLe(0, gr, n);
    Distrib(gr, 1, n);
    assert RowStart(d, dx, dy, row) == gr * n + col;
  }

  /** The first k rows of tile (dx, dy), each a slice of T samples of the
      grid, concatenated: the reference for what the copy loop produces. */
  function TileRows(d: Dims, data: seq<byte>, dx: nat, dy: nat, k: nat): (r: seq<byte>)
    requires d.Valid() && |data| == d.GridBytes()
    requires dx < d.splitParts && dy < d.splitParts && k <= d.tileSize
    ensures |r| == k * d.tileSize * 2
  {
    if k == 0 then []
    else
      RowInGrid(d, dx, dy, k - 1);
      var start := RowStart(d, dx, dy, k - 1);
      var prefix := TileRows(d, data, dx, dy, k - 1);
      assert |prefix| + d.tileSize * 2 == k * d.tileSize * 2;
      prefix + data[start * 2..(start + d.tileSize) * 2]
  }

  /** The row-copy loop of splitDem from row `row` on, writing into the tile
      buffer `buf`. `None` is a panic: a slice outside the grid or the tile
      buffer, or a copy of other than T*2 bytes. */
  function CopyRows(d: Dims, data: seq<byte>, dx: nat, dy: nat, row: nat, buf: seq<byte>): (filled: Option<seq<byte>>)
    decreases d.tileSize - row
  {
    if row >= d.tileSize then Some(buf)
    else
      var start := RowStart(d, dx, dy, row);
      var at := row * d.tileSize * 2;
      if start < 0 || (start + d.tileSize) * 2 > |data| || at > |buf| then None
      else
        var src := data[start * 2..(start + d.tileSize) * 2];
        var n := Min(|buf| - at, |src|);
        if n != d.tileSize * 2 then None
        else CopyRows(d, data, dx, dy, row + 1, buf[..at] + src[..n] + buf[at + n..])
  }

  /** Under N = S*(T-1)+1 the copy loop never panics: each row copies
      exactly T*2 bytes, and the filled buffer is the tile's rows. */
  lemma {:induction false} CopyRowsFill(d: Dims, data: seq<byte>, dx: nat, dy: nat, row: nat, buf: seq<byte>)
    requires d.Valid() && |data| == d.GridBytes()
    requires dx < d.splitParts && dy < d.splitParts && row <= d.tileSize
    requires |buf| == d.TileBytes()
    requires row * d.tileSize * 2 <= |buf|
    requires buf[..row * d.tileSize * 2] == TileRows(d, data, dx, dy, row)
    ensures CopyRows(d, data, dx, dy, row, buf) == Some(TileRows(d, data, dx, dy, d.tileSize))
    decreases d.tileSize - row
  {
    var t := d.tileSize;
    if row < t {
      RowInGrid(d, dx, dy, row);
      var start := RowStart(d, dx, dy, row);
      var at := row * t * 2;
      MulLe(row + 1, t, t);
      Distrib(row, 1, t);
      assert at + t * 2 == (row + 1) * t * 2 <= |buf|;
      var src := data[start * 2..(start + t) * 2];
      assert |src| == t * 2;
      var next := buf[..at] + src[..t * 2] + buf[at + t * 2..];
      assert CopyRows(d, data, dx, dy, row, buf) == CopyRows(d, data, dx, dy, row + 1, next);
      assert next[..(row + 1) * t * 2] == buf[..at] + src;
      CopyRowsFill(d, data, dx, dy, row + 1, next);
    } else {
      assert buf == buf[..row * t * 2];
    }
  }

  /** The payload of tile (dx, dy): its T rows. */
  function TileData(d: Dims, data: seq<byte>, dx: nat, dy: nat): (r: seq<byte>)
    requires d.Valid() && |data| == d.GridBytes() && dx < d.splitParts && dy < d.splitParts
    ensures |r| == d.TileBytes()
  {
    TileRows(d, data, dx, dy, d.tileSize)
  }

  /** The global coordinates of tile (dx, dy) of cell idx. */
  function Coordinates(d: Dims, idx: HgtIndex, dx: int, dy: int): (p: TileIndex)
  {
    TileIndex(idx.lon * d.splitParts + dx, idx.lat * d.splitParts + dy)
  }

  /** One tile of splitDem: its global coordinates, and the buffer the copy
      loop fills starting from a zeroed tile. */
  function SplitTile(d: Dims, idx: HgtIndex, data: seq<byte>, dx: nat, dy: nat): (t: TileRaw)
    requires d.Valid() && |data| == d.GridBytes() && dx < d.splitParts && dy < d.splitParts
    ensures t.index == Coordinates(d, idx, dx, dy)
    ensures t.data == TileData(d, data, dx, dy)
  {
    var zero := seq(d.TileBytes(), _ => 0 as byte);
    CopyRowsFill(d, data, dx, dy, 0, zero);
    TileRaw(TileIndex(idx.lon * d.splitParts + dx, idx.lat * d.splitParts + dy),
            CopyRows(d, data, dx, dy, 0, zero).value)
  }

  /** The tile splitDem stores in slot i. */
  function SlotTile(d: Dims, idx: HgtIndex, data: seq<byte>, i: nat): (t: TileRaw)
    requires d.Valid() && |data| == d.GridBytes() && i < d.splitParts * d.splitParts
  {
    SlotSplit(d.splitParts, i);
    SplitTile(d, idx, data, i % d.splitParts, i / d.splitParts)
  }

  /** splitDem: the S*S tiles of a grid, slot by slot. */
  function SplitDem(d: Dims, idx: HgtIndex, data: seq<byte>): (tiles: seq<TileRaw>)
    requires d.Valid() && |data| == d.GridBytes()
    ensures |tiles| == d.splitParts * d.splitParts
    ensures forall i | 0 <= i < |tiles| :: tiles[i] == SlotTile(d, idx, data, i)
  {
    var s := d.splitParts;
    seq(s * s, i requires 0 <= i < s * s => SlotTile(d, idx, data, i))
  }

  /** Tile (dx, dy) is in slot dy*S + dx. */
  lemma SplitDemSlot(d: Dims, idx: HgtIndex, data: seq<byte>, dx: nat, dy: nat)
    requires d.Valid() && |data| == d.GridBytes() && dx < d.splitParts && dy < d.splitParts
    ensures 0 <= dy * d.splitParts + dx < |SplitDem(d, idx, data)|
    ensures SplitDem(d, idx, data)[dy * d.splitParts + dx] == SplitTile(d, idx, data, dx, dy)
  {
    SlotJoin(d.splitParts, dx, dy);
  }

  /** Byte j of row r of the first k tile rows is byte j of that row's slice
      of the grid. */
  lemma {:induction false} TileRowsByte(d: Dims, data: seq<byte>, dx: nat, dy: nat, k: nat, r: nat, j: nat)
    requires d.Valid() && |data| == d.GridBytes()
    requires dx < d.splitParts && dy < d.splitParts && k <= d.tileSize
    requires r < k && j < d.tileSize * 2
    ensures 0 <= r * d.tileSize * 2 + j < |TileRows(d, data, dx, dy, k)|
    ensures 0 <= RowStart(d, dx, dy, r) * 2 + j < |data|
    ensures TileRows(d, data, dx, dy, k)[r * d.tileSize * 2 + j] == data[RowStart(d, dx, dy, r) * 2 + j]
  {
    var t := d.tileSize;
    RowInGrid(d, dx, dy, k - 1);
    var prefix := TileRows(d, data, dx, dy, k - 1);
    var last := RowStart(d, dx, dy, k - 1);
    var row := data[last * 2..(last + t) * 2];
    assert TileRows(d, data, dx, dy, k) == prefix + row;
    if r < k - 1 {
      TileRowsByte(d, data, dx, dy, k - 1, r, j);
    } else {
      assert r == k - 1;
      MulLe(0, r, t);
    }
  }

  /** Sample (r, c) of tile (dx, dy) is grid sample
      (N-1 - dy*(T-1) - r, dx*(T-1) + c), both bytes of it. */
  lemma TileSample(d: Dims, data: seq<byte>, dx: nat, dy: nat, r: nat, c: nat, b: nat)
    requires d.Valid() && |data| == d.GridBytes() && dx < d.splitParts && dy < d.splitParts
    requires r < d.tileSize && c < d.tileSize && b < 2
    ensures 0 <= GridRowOf(d, dy, r) < d.hgtSize
    ensures 0 <= dx * (d.tileSize - 1) && dx * (d.tileSize - 1) + c < d.hgtSize
    ensures SampleByte(TileData(d, data, dx, dy), d.tileSize, r, c, b)
         == SampleByte(data, d.hgtSize, GridRowOf(d, dy, r), dx * (d.tileSize - 1) + c, b)
  {
    RowInGrid(d, dx, dy, r);
    TileRowsByte(d, data, dx, dy, d.tileSize, r, c * 2 + b);
    assert (r * d.tileSize + c) * 2 + b == r * d.tileSize * 2 + (c * 2 + b);
  }

  /** The last column of tile (dx, dy) is, sample for sample, the first
      column of tile (dx+1, dy). */
  lemma SharedColumn(d: Dims, idx: HgtIndex, data: seq<byte>, dx: nat, dy: nat, r: nat, b: nat)
    requires d.Valid() && |data| == d.GridBytes()
    requires dx + 1 < d.splitParts && dy < d.splitParts && r < d.tileSize && b < 2
    ensures var t := d.tileSize;
            SampleByte(SplitTile(d, idx, data, dx, dy).data, t, r, t - 1, b)
              == SampleByte(SplitTile(d, idx, data, dx + 1, dy).data, t, r, 0, b)
  {
    var t := d.tileSize;
    TileSample(d, data, dx, dy, r, t - 1, b);
    TileSample(d, data, dx + 1, dy, r, 0, b);
    Distrib(dx, 1, t - 1);
  }

  /** The last row of tile (dx, dy) is, sample for sample, the first row of
      tile (dx, dy+1). */
  lemma SharedRow(d: Dims, idx: HgtIndex, data: seq<byte>, dx: nat, dy: nat, c: nat, b: nat)
    requires d.Valid() && |data| == d.GridBytes()
    requires dx < d.splitParts && dy + 1 < d.splitParts && c < d.tileSize && b < 2
    ensures var t := d.tileSize;
            SampleByte(SplitTile(d, idx, data, dx, dy).data, t, t - 1, c, b)
              == SampleByte(SplitTile(d, idx, data, dx, dy + 1).data, t, 0, c, b)
  {
    var t := d.tileSize;
    TileSample(d, data, dx, dy, t - 1, c, b);
    TileSample(d, data, dx, dy + 1, 0, c, b);
    Distrib(dy, 1, t - 1);
  }

  /** Along one axis, grid position v falls in band `band` at offset
      `offset`: the last band takes the shared final sample. */
  datatype AxisSpot = AxisSpot(band: nat, offset: nat)

  function LocateAxis(d: Dims, v: nat): (p: AxisSpot)
    requires d.Valid() && v < d.hgtSize
    ensures p.band < d.splitParts && p.offset < d.tileSize
    ensures p.band * (d.tileSize - 1) + p.offset == v
  {
    var s, k := d.splitParts, d.tileSize - 1;
    DivMod(v, k);
    var q := v / k;
    if q < s then AxisSpot(q, v % k)
    else
      MulLe(s, q, k);
      Distrib(s - 1, 1, k);
      AxisSpot(s - 1, v - (s - 1) * k)
  }

  /** Every grid sample is kept: sample (gr, gc) of the grid reappears in
      the tile that `LocateAxis` names (which splitDem stores in slot
      dy*S + dx, by SplitDemSlot), so the tiles reassemble the grid. */
  lemma EverySampleKept(d: Dims, idx: HgtIndex, data: seq<byte>, gr: nat, gc: nat, b: nat)
    requires d.Valid() && |data| == d.GridBytes()
    requires gr < d.hgtSize && gc < d.hgtSize && b < 2
    ensures var col, row := LocateAxis(d, gc), LocateAxis(d, d.hgtSize - 1 - gr);
            SampleByte(SplitTile(d, idx, data, col.band, row.band).data, d.tileSize, row.offset, col.offset, b)
              == SampleByte(data, d.hgtSize, gr, gc, b)
  {
    var col, row := LocateAxis(d, gc), LocateAxis(d, d.hgtSize - 1 - gr);
    TileSample(d, data, col.band, row.band, row.offset, col.offset, b);
  }

  /** Slot i holds the tile with coordinates (lon*S + i%S, lat*S + i/S). */
  lemma SlotCoordinates(d: Dims, idx: HgtIndex, data: seq<byte>, i: nat)
    requires d.Valid() && |data| == d.GridBytes() && i < d.splitParts * d.splitParts
    ensures i % d.splitParts < d.splitParts && i / d.splitParts < d.splitParts
    ensures SplitDem(d, idx, data)[i].index == Coordinates(d, idx, i % d.splitParts, i / d.splitParts)
  {
    SlotSplit(d.splitParts, i);
    assert SplitDem(d, idx, data)[i] == SlotTile(d, idx, data, i);
  }

  /** Distinct slots hold tiles with distinct coordinates. */
  lemma SplitCoordinatesDistinct(d: Dims, idx: HgtIndex, data: seq<byte>, i: nat, j: nat)
    requires d.Valid() && |data| == d.GridBytes()
    requires i < d.splitParts * d.splitParts && j < d.splitParts * d.splitParts && i != j
    ensures SplitDem(d, idx, data)[i].index != SplitDem(d, idx, data)[j].index
  {
    var s := d.splitParts;
    SlotCoordinates(d, idx, data, i);
    SlotCoordinates(d, idx, data, j);
    SlotSplit(s, i);
    SlotSplit(s, j);
  }

  /** The coordinates of the S*S tiles of cell idx. */
  function CellTiles(d: Dims, idx: HgtIndex): (cell: set<TileIndex>)
  {
    var s := d.splitParts;
    set dx: nat, dy: nat | dx < s && dy < s :: Coordinates(d, idx, dx, dy)
  }

  /** Slot i of the split carries coordinates of the cell. */
  lemma SlotInCell(d: Dims, idx: HgtIndex, i: nat)
    requires d.splitParts >= 1 && i < d.splitParts * d.splitParts
    ensures Coordinates(d, idx, i % d.splitParts, i / d.splitParts) in CellTiles(d, idx)
  {
    SlotSplit(d.splitParts, i);
    InCellTiles(d, idx, i % d.splitParts, i / d.splitParts);
  }

  lemma InCellTiles(d: Dims, idx: HgtIndex, dx: nat, dy: nat)
    requires dx < d.splitParts && dy < d.splitParts
    ensures Coordinates(d, idx, dx, dy) in CellTiles(d, idx)
  {
  }

  lemma CellInSplit(d: Dims, idx: HgtIndex, data: seq<byte>, p: TileIndex)
    requires d.Valid() && |data| == d.GridBytes() && p in CellTiles(d, idx)
    ensures exists t :: t in SplitDem(d, idx, data) && t.index == p
  {
    var s := d.splitParts;
    var dx: nat, dy: nat :| dx < s && dy < s && p == Coordinates(d, idx, dx, dy);
    SplitDemSlot(d, idx, data, dx, dy);
    var t := SplitDem(d, idx, data)[dy * s + dx];
    assert t in SplitDem(d, idx, data) && t.index == p;
  }

  /** The split of cell (lat, lon) yields exactly the coordinates
      (lon*S + dx, lat*S + dy) for dx, dy in [0, S). */
  lemma SplitCoordinates(d: Dims, idx: HgtIndex, data: seq<byte>)
    requires d.Valid() && |data| == d.GridBytes()
    ensures (set t | t in SplitDem(d, idx, data) :: t.index) == CellTiles(d, idx)
  {
    var tiles := SplitDem(d, idx, data);
    forall p | p in (set t | t in tiles :: t.index)
      ensures p in CellTiles(d, idx)
    {
      var i :| 0 <= i < |tiles| && tiles[i].index == p;
      SlotCoordinates(d, idx, data, i);
      SlotInCell(d, idx, i);
    }
    forall p | p in CellTiles(d, idx)
      ensures p in (set t | t in tiles :: t.index)
    {
      CellInSplit(d, idx, data, p);
    }
  }
}
