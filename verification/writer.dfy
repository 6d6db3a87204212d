/** The storage writer (pkg/dem): compress a tile, append the compressed
    bytes to the data file, and record where they went in the dense
    whole-globe index. The compressor is a parameter; the data file is the
    sequence of bytes written so far, so the position the writer asks the
    file for is always its length. */
module DemWriter {
  import opened Base
  import opened Dem

  /** The data file's contents and the in-memory index, index[x][y] for
      shifted coordinates x in [0, 360*S) and y in [0, 180*S). */
  datatype StorageWriter = StorageWriter(data: seq<byte>, index: seq<seq<Record>>)

  /** The index has the fixed array shape of its type. */
  predicate Shaped(d: Dims, w: StorageWriter) {
    |w.index| == d.Width() && forall x | 0 <= x < |w.index| :: |w.index[x]| == d.Height()
  }

  /** A freshly created writer: empty data file, every entry absent. */
  function Empty(d: Dims): (w: StorageWriter)
    ensures Shaped(d, w) && w.data == []
    ensures forall x, y | 0 <= x < |w.index| && 0 <= y < |w.index[x]| :: w.index[x][y] == Absent
  {
    StorageWriter([], seq(d.Width(), _ => seq(d.Height(), _ => Absent)))
  }

  /** What the data file does on one put: the position query and the write
      either succeed, or fail after `written` bytes reached the file. */
  datatype Io = Healthy | SeekFails(seekError: string) | WriteFails(written: nat, writeError: string)

  /** Outcome of a put. `Panicked` is a run-time index-out-of-range panic:
      the process dies with the writer in the state shown. */
  datatype Step =
    | Done(writer: StorageWriter)
    | Failed(error: Error, writer: StorageWriter)
    | Panicked(writer: StorageWriter)

  /** Array position of a tile: signed tile coordinates shifted by half the
      globe. */
  function ShiftX(d: Dims, p: TileIndex): (x: int) { p.x + 180 * d.splitParts }

  function ShiftY(d: Dims, p: TileIndex): (y: int) { p.y + 90 * d.splitParts }

  /** The tile's shifted position lies inside the index. */
  predicate InRange(d: Dims, p: TileIndex) {
    0 <= ShiftX(d, p) < d.Width() && 0 <= ShiftY(d, p) < d.Height()
  }

  /** The index entry of an in-range tile. */
  function Entry(d: Dims, w: StorageWriter, p: TileIndex): (r: Record)
    requires Shaped(d, w) && InRange(d, p)
  {
    w.index[ShiftX(d, p)][ShiftY(d, p)]
  }

  /** The index with the entry of an in-range tile replaced. */
  function SetEntry(d: Dims, w: StorageWriter, p: TileIndex, r: Record): (w': StorageWriter)
    requires Shaped(d, w) && InRange(d, p)
    ensures Shaped(d, w') && w'.data == w.data
    ensures Entry(d, w', p) == r
    ensures forall q | InRange(d, q) && q != p :: Entry(d, w', q) == Entry(d, w, q)
  {
    var x, y := ShiftX(d, p), ShiftY(d, p);
    w.(index := w.index[x := w.index[x][y := r]])
  }

  /** The bytes a record designates, when it lies inside the data file. */
  function Payload(data: seq<byte>, r: Record): (bytes: seq<byte>)
    requires 0 <= r.offset && 0 <= r.length && r.offset + r.length <= |data|
  {
    data[r.offset..r.offset + r.length]
  }

  /** PutTile as written: position query, write, then a range check whose
      upper bounds are not strict, then the index store. A tile rejected by
      the check has already been appended to the data file; a tile one past
      the end passes the check and the store panics. */
  function PutTile(d: Dims, w: StorageWriter, tile: TileRaw, compress: seq<byte> -> seq<byte>, io: Io): (r: Step)
    requires Shaped(d, w)
    ensures Shaped(d, r.writer)
    // the data file only ever grows, by a prefix of the compressed tile
    ensures exists n | 0 <= n <= |compress(tile.data)| :: r.writer.data == w.data + compress(tile.data)[..n]
    // a failed position query changes nothing
    ensures io.SeekFails? ==> r == Failed(IoError(io.seekError), w)
    // a failed write keeps what reached the file and leaves the index alone
    ensures io.WriteFails? ==> r.Failed? && r.error == IoError(io.writeError) && r.writer.index == w.index
    // with healthy I/O the whole compressed tile is appended, whatever happens next
    ensures io.Healthy? ==> r.writer.data == w.data + compress(tile.data)
    // exactly the in-range tiles are stored
    ensures r.Done? <==> io.Healthy? && InRange(d, tile.index)
    ensures r.Done? ==> Entry(d, r.writer, tile.index) == Record(|w.data|, |compress(tile.data)|)
    ensures r.Done? ==> forall q | InRange(d, q) && q != tile.index :: Entry(d, r.writer, q) == Entry(d, w, q)
    // a rejected tile leaves the index alone
    ensures io.Healthy? && r.Failed? ==> r.error == IndexOutOfRange && r.writer.index == w.index
    // only an out-of-range tile, written in full, can make the store panic
    ensures r.Panicked? ==> io.Healthy? && !InRange(d, tile.index)
  {
    var c := compress(tile.data);
    match io
    case SeekFails(e) =>
      assert w.data + c[..0] == w.data;
      Failed(IoError(e), w)
    case WriteFails(n, e) =>
      Failed(IoError(e), w.(data := w.data + c[..Min(n, |c|)]))
    case Healthy =>
      assert c[..|c|] == c;
      var w1 := w.(data := w.data + c);
      var x, y := ShiftX(d, tile.index), ShiftY(d, tile.index);
      if x < 0 || y < 0 || x > d.Width() || y > d.Height() then Failed(IndexOutOfRange, w1)
      else if x == d.Width() || y == d.Height() then Panicked(w1)
      else Done(SetEntry(d, w1, tile.index, Record(|w.data|, |c|)))
  }

  /** The store panics for exactly the tiles whose shifted position sits on
      the far edge of the index while passing the non-strict check. */
  lemma PanicsOnFarEdge(d: Dims, w: StorageWriter, tile: TileRaw, compress: seq<byte> -> seq<byte>)
    requires Shaped(d, w)
    ensures PutTile(d, w, tile, compress, Healthy).Panicked? <==>
              && 0 <= ShiftX(d, tile.index) <= d.Width()
              && 0 <= ShiftY(d, tile.index) <= d.Height()
              && !InRange(d, tile.index)
  {
  }

  /** A tile at the eastern edge of the index (X = 180*S) panics. */
  lemma EasternEdgePanics(d: Dims, w: StorageWriter, data: seq<byte>, compress: seq<byte> -> seq<byte>)
    requires Shaped(d, w)
    ensures PutTile(d, w, TileRaw(TileIndex(180 * d.splitParts, 0), data), compress, Healthy).Panicked?
  {
  }

  /** A tile west of the index is rejected, yet its bytes stay in the data
      file. */
  lemma RejectedTileGrowsData(d: Dims, w: StorageWriter, data: seq<byte>, compress: seq<byte> -> seq<byte>)
    requires Shaped(d, w) && |compress(data)| > 0
    ensures var r := PutTile(d, w, TileRaw(TileIndex(-180 * d.splitParts - 1, 0), data), compress, Healthy);
            r == Failed(IndexOutOfRange, r.writer) && |r.writer.data| > |w.data|
  {
  }

  /** PutTile with the range check made strict and moved in front of the
      write: an out-of-range tile is rejected before anything reaches the
      data file, and nothing panics. */
  function PutTileStrict(d: Dims, w: StorageWriter, tile: TileRaw, compress: seq<byte> -> seq<byte>, io: Io): (r: Step)
    requires Shaped(d, w)
    ensures !r.Panicked? && Shaped(d, r.writer)
    ensures !InRange(d, tile.index) ==> r == Failed(IndexOutOfRange, w)
    ensures InRange(d, tile.index) ==> r == PutTile(d, w, tile, compress, io)
  {
    if !InRange(d, tile.index) then Failed(IndexOutOfRange, w)
    else PutTile(d, w, tile, compress, io)
  }

  /** The range check a put applies: the one in the code, or the
      corrected one of `PutTileStrict`. */
  datatype RangeCheck = AsWritten | Corrected

  /** A put under the given range check. The two agree on every in-range
      tile; only the corrected one never panics. */
  function PutTileWith(check: RangeCheck, d: Dims, w: StorageWriter, tile: TileRaw,
                       compress: seq<byte> -> seq<byte>, io: Io): (r: Step)
    requires Shaped(d, w)
    ensures Shaped(d, r.writer)
    ensures exists n | 0 <= n <= |compress(tile.data)| :: r.writer.data == w.data + compress(tile.data)[..n]
    ensures InRange(d, tile.index) ==> r == PutTile(d, w, tile, compress, io)
    ensures check.AsWritten? ==> r == PutTile(d, w, tile, compress, io)
    ensures check.Corrected? ==> !r.Panicked?
    ensures check.Corrected? && !InRange(d, tile.index) ==> r == Failed(IndexOutOfRange, w)
  {
    match check
    case AsWritten => PutTile(d, w, tile, compress, io)
    case Corrected =>
      assert w.data + compress(tile.data)[..0] == w.data;
      PutTileStrict(d, w, tile, compress, io)
  }

  /** A put with healthy I/O succeeds exactly for in-range tiles, and a
      rejected put leaves the writer as it was. */
  lemma StrictPutOutcome(d: Dims, w: StorageWriter, tile: TileRaw, compress: seq<byte> -> seq<byte>)
    requires Shaped(d, w)
    ensures var r := PutTileStrict(d, w, tile, compress, Healthy);
            && (r.Done? <==> InRange(d, tile.index))
            && (r.Failed? ==> r == Failed(IndexOutOfRange, w))
            && (r.Done? ==> r.writer.data == w.data + compress(tile.data))
  {
  }

  /** A record lies inside a data file of n bytes. */
  predicate Inside(r: Record, n: int) {
    0 <= r.offset && 0 <= r.length && r.offset + r.length <= n
  }

  /** Two records do not share a byte (an empty record shares none). */
  predicate Apart(a: Record, b: Record) {
    a.length == 0 || b.length == 0 || a.offset + a.length <= b.offset || b.offset + b.length <= a.offset
  }

  /** Every index entry designates bytes of the data file, and entries at
      different positions designate different bytes. */
  ghost predicate Consistent(d: Dims, w: StorageWriter) {
    && Shaped(d, w)
    && (forall p | InRange(d, p) :: Inside(Entry(d, w, p), |w.data|))
    && (forall p, q | InRange(d, p) && InRange(d, q) && p != q :: Apart(Entry(d, w, p), Entry(d, w, q)))
  }

  lemma EmptyConsistent(d: Dims)
    ensures Consistent(d, Empty(d))
  {
  }

  /** Appending bytes keeps a consistent writer consistent. */
  lemma GrowConsistent(d: Dims, w: StorageWriter, extra: seq<byte>)
    requires Consistent(d, w)
    ensures Consistent(d, w.(data := w.data + extra))
  {
    var w1 := w.(data := w.data + extra);
    forall p | InRange(d, p)
      ensures Inside(Entry(d, w1, p), |w1.data|)
    {
      assert Entry(d, w1, p) == Entry(d, w, p);
    }
    forall p, q | InRange(d, p) && InRange(d, q) && p != q
      ensures Apart(Entry(d, w1, p), Entry(d, w1, q))
    {
      assert Entry(d, w1, p) == Entry(d, w, p) && Entry(d, w1, q) == Entry(d, w, q);
    }
  }

  /** Recording the bytes just appended keeps a consistent writer
      consistent: the new record starts where every old one has ended. */
  lemma StoreConsistent(d: Dims, w: StorageWriter, extra: seq<byte>, p: TileIndex)
    requires Consistent(d, w) && InRange(d, p)
    ensures Consistent(d, SetEntry(d, w.(data := w.data + extra), p, Record(|w.data|, |extra|)))
  {
    var w1 := w.(data := w.data + extra);
    GrowConsistent(d, w, extra);
    var rec := Record(|w.data|, |extra|);
    var w2 := SetEntry(d, w1, p, rec);
    forall q | InRange(d, q)
      ensures Inside(Entry(d, w2, q), |w2.data|)
    {
      if q != p {
        assert Entry(d, w2, q) == Entry(d, w1, q);
      }
    }
    forall q1, q2 | InRange(d, q1) && InRange(d, q2) && q1 != q2
      ensures Apart(Entry(d, w2, q1), Entry(d, w2, q2))
    {
      if q1 == p {
        assert Entry(d, w2, q2) == Entry(d, w, q2);
        assert Inside(Entry(d, w, q2), |w.data|);
      } else if q2 == p {
        assert Entry(d, w2, q1) == Entry(d, w, q1);
        assert Inside(Entry(d, w, q1), |w.data|);
      } else {
        assert Entry(d, w2, q1) == Entry(d, w1, q1) && Entry(d, w2, q2) == Entry(d, w1, q2);
      }
    }
  }

  /** Whatever its outcome, a put leaves a consistent writer consistent,
      and a stored tile's record designates exactly its compressed bytes. */
  lemma PutTileConsistent(d: Dims, w: StorageWriter, tile: TileRaw, compress: seq<byte> -> seq<byte>, io: Io)
    requires Consistent(d, w)
    ensures var r := PutTile(d, w, tile, compress, io);
            && Consistent(d, r.writer)
            && (r.Done? ==> Payload(r.writer.data, Entry(d, r.writer, tile.index)) == compress(tile.data))
  {
    var c := compress(tile.data);
    var r := PutTile(d, w, tile, compress, io);
    match io
    case SeekFails(_) =>
    case WriteFails(n, _) =>
      GrowConsistent(d, w, c[..Min(n, |c|)]);
    case Healthy =>
      GrowConsistent(d, w, c);
      if r.Done? {
        StoreConsistent(d, w, c, tile.index);
        assert r.writer == SetEntry(d, w.(data := w.data + c), tile.index, Record(|w.data|, |c|));
        assert r.writer.data[|w.data|..|w.data| + |c|] == c;
      }
  }

  lemma PutTileStrictConsistent(d: Dims, w: StorageWriter, tile: TileRaw, compress: seq<byte> -> seq<byte>, io: Io)
    requires Consistent(d, w)
    ensures var r := PutTileStrict(d, w, tile, compress, io);
            && Consistent(d, r.writer)
            && (r.Done? ==> Payload(r.writer.data, Entry(d, r.writer, tile.index)) == compress(tile.data))
  {
    PutTileConsistent(d, w, tile, compress, io);
  }

  lemma PutTileWithConsistent(check: RangeCheck, d: Dims, w: StorageWriter, tile: TileRaw,
                              compress: seq<byte> -> seq<byte>, io: Io)
    requires Consistent(d, w)
    ensures var r := PutTileWith(check, d, w, tile, compress, io);
            && Consistent(d, r.writer)
            && (r.Done? ==> Payload(r.writer.data, Entry(d, r.writer, tile.index)) == compress(tile.data))
  {
    PutTileConsistent(d, w, tile, compress, io);
  }
}
