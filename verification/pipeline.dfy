/** The per-file step of the build (processHgt): read a grid, decode the
    cell from the file name, split the grid into tiles and put them one by
    one, stopping at the first error. Every put applies a `RangeCheck`:
    `AsWritten` is the code's `PutTile`, `Corrected` the strict check of
    `DemWriter.PutTileStrict`. The two agree on every cell inside the
    globe (`CellTilesInRange`). */
module MakeData {
  import opened Base
  import opened Dem
  import opened HgtName
  import opened HgtReader
  import opened TileSplit
  import opened DemWriter

  /** The compressed payloads of `tiles`, back to back. */
  function Compressed(compress: seq<byte> -> seq<byte>, tiles: seq<TileRaw>): (payloads: seq<byte>)
    decreases |tiles|
  {
    if tiles == [] then [] else compress(tiles[0].data) + Compressed(compress, tiles[1..])
  }

  lemma {:induction false} CompressedAppend(compress: seq<byte> -> seq<byte>, a: seq<TileRaw>, b: seq<TileRaw>)
    ensures Compressed(compress, a + b) == Compressed(compress, a) + Compressed(compress, b)
    decreases |a|
  {
    if a == [] {
      assert a + b == b;
    } else {
      assert (a + b)[1..] == a[1..] + b;
      CompressedAppend(compress, a[1..], b);
    }
  }

  /** Tile i's payload follows the payloads of the tiles before it. */
  lemma CompressedAt(compress: seq<byte> -> seq<byte>, tiles: seq<TileRaw>, i: nat)
    requires i < |tiles|
    ensures |Compressed(compress, tiles[..i])| + |compress(tiles[i].data)| <= |Compressed(compress, tiles)|
    ensures var off := |Compressed(compress, tiles[..i])|;
            Compressed(compress, tiles)[off..off + |compress(tiles[i].data)|] == compress(tiles[i].data)
  {
    var rest := [tiles[i]] + tiles[i + 1..];
    assert tiles == tiles[..i] + rest;
    assert rest[1..] == tiles[i + 1..];
    CompressedAppend(compress, tiles[..i], rest);
  }

  /** The tiles of one file put in order, the j-th put meeting the data
      file in state io(k + j); the first put that does not succeed ends the
      run and its outcome is the run's. */
  function PutTiles(check: RangeCheck, d: Dims, w: StorageWriter, tiles: seq<TileRaw>, compress: seq<byte> -> seq<byte>,
                    io: nat -> Io, k: nat): (r: Step)
    requires Shaped(d, w)
    ensures Shaped(d, r.writer)
    // the data file holds a prefix of the intended payloads after what it held
    ensures w.data <= r.writer.data <= w.data + Compressed(compress, tiles)
    // a panic needs a tile outside the index, and the corrected check
    ensures r.Panicked? ==> check.AsWritten? && !AllInRange(d, tiles)
    decreases |tiles|
  {
    if tiles == [] then Done(w)
    else
      var c := compress(tiles[0].data);
      var whole := w.data + Compressed(compress, tiles);
      assert whole == w.data + c + Compressed(compress, tiles[1..]);
      match PutTileWith(check, d, w, tiles[0], compress, io(k))
      case Done(w1) =>
        assert w1.data == w.data + c;
        PutTiles(check, d, w1, tiles[1..], compress, io, k + 1)
      case Failed(e, w1) =>
        assert w1.data <= whole by {
          var n :| 0 <= n <= |c| && w1.data == w.data + c[..n];
          assert whole[..|w1.data|] == w1.data;
        }
        Failed(e, w1)
      case Panicked(w1) =>
        assert w1.data <= whole by {
          var n :| 0 <= n <= |c| && w1.data == w.data + c[..n];
          assert whole[..|w1.data|] == w1.data;
        }
        Panicked(w1)
  }

  /** A non-empty run is its first put followed, if that succeeds, by the
      rest of the run. */
  lemma PutTilesUnfold(check: RangeCheck, d: Dims, w: StorageWriter, t: TileRaw, rest: seq<TileRaw>,
                       compress: seq<byte> -> seq<byte>, io: nat -> Io, k: nat)
    requires Shaped(d, w)
    ensures var s := PutTileWith(check, d, w, t, compress, io(k));
            PutTiles(check, d, w, [t] + rest, compress, io, k)
            == if s.Done? then PutTiles(check, d, s.writer, rest, compress, io, k + 1) else s
  {
    assert ([t] + rest)[0] == t && ([t] + rest)[1..] == rest;
  }

  /** Putting a + b is putting a and, if that succeeds, then b from the
      I/O state kb = k + |a| on: a run stops at its first failing put. */
  lemma {:induction false} PutTilesAppend(check: RangeCheck, d: Dims, w: StorageWriter, a: seq<TileRaw>, b: seq<TileRaw>,
                                          compress: seq<byte> -> seq<byte>, io: nat -> Io, k: nat, kb: nat)
    requires Shaped(d, w) && kb == k + |a|
    ensures var first := PutTiles(check, d, w, a, compress, io, k);
            PutTiles(check, d, w, a + b, compress, io, k) ==
              if first.Done? then PutTiles(check, d, first.writer, b, compress, io, kb) else first
    decreases |a|
  {
    if a == [] {
      assert a + b == b;
    } else {
      var t, tail := a[0], a[1..];
      assert a == [t] + tail;
      assert a + b == [t] + (tail + b);
      PutTilesUnfold(check, d, w, t, tail + b, compress, io, k);
      PutTilesUnfold(check, d, w, t, tail, compress, io, k);
      var s := PutTileWith(check, d, w, t, compress, io(k));
      if s.Done? {
        PutTilesAppend(check, d, s.writer, tail, b, compress, io, k + 1, kb);
      }
    }
  }

  /** On tiles that are all in range the two range checks run alike. */
  lemma {:induction false} PutTilesChecksAgree(d: Dims, w: StorageWriter, tiles: seq<TileRaw>,
                                               compress: seq<byte> -> seq<byte>, io: nat -> Io, k: nat)
    requires Shaped(d, w) && AllInRange(d, tiles)
    ensures PutTiles(AsWritten, d, w, tiles, compress, io, k) == PutTiles(Corrected, d, w, tiles, compress, io, k)
    decreases |tiles|
  {
    if tiles != [] {
      var t, rest := tiles[0], tiles[1..];
      assert tiles == [t] + rest;
      assert AllInRange(d, rest) by {
        forall j | 0 <= j < |rest| ensures InRange(d, rest[j].index) { assert rest[j] == tiles[j + 1]; }
      }
      PutTilesUnfold(AsWritten, d, w, t, rest, compress, io, k);
      PutTilesUnfold(Corrected, d, w, t, rest, compress, io, k);
      var s := PutTileWith(AsWritten, d, w, t, compress, io(k));
      if s.Done? {
        PutTilesChecksAgree(d, s.writer, rest, compress, io, k + 1);
      }
    }
  }

  /** Every run keeps a consistent writer consistent. */
  lemma {:induction false} PutTilesConsistent(check: RangeCheck, d: Dims, w: StorageWriter, tiles: seq<TileRaw>,
                                              compress: seq<byte> -> seq<byte>, io: nat -> Io, k: nat)
    requires Consistent(d, w)
    ensures Consistent(d, PutTiles(check, d, w, tiles, compress, io, k).writer)
    decreases |tiles|
  {
    if tiles != [] {
      PutTileWithConsistent(check, d, w, tiles[0], compress, io(k));
      var s := PutTileWith(check, d, w, tiles[0], compress, io(k));
      if s.Done? {
        PutTilesConsistent(check, d, s.writer, tiles[1..], compress, io, k + 1);
      }
    }
  }

  /** No later tile of the run has the same coordinates as tile i. */
  predicate LastOf(tiles: seq<TileRaw>, i: nat)
    requires i < |tiles|
  {
    forall j | i < j < |tiles| :: tiles[j].index != tiles[i].index
  }

  /** None of the tiles has coordinates p. */
  predicate Untouched(tiles: seq<TileRaw>, p: TileIndex) {
    forall j | 0 <= j < |tiles| :: tiles[j].index != p
  }

  predicate AllInRange(d: Dims, tiles: seq<TileRaw>) {
    forall j | 0 <= j < |tiles| :: InRange(d, tiles[j].index)
  }

  predicate AllHealthy(io: nat -> Io, k: nat, n: nat) {
    forall j | k <= j < k + n :: io(j).Healthy?
  }

  /** An in-range tile put with healthy I/O appends its payload and
      records it. */
  lemma PutInRange(check: RangeCheck, d: Dims, w: StorageWriter, t: TileRaw, compress: seq<byte> -> seq<byte>)
    requires Shaped(d, w) && InRange(d, t.index)
    ensures PutTileWith(check, d, w, t, compress, Healthy)
            == Done(SetEntry(d, w.(data := w.data + compress(t.data)), t.index, Record(|w.data|, |compress(t.data)|)))
  {
  }

  /** One successful put, then the rest of the run. */
  lemma PutTilesStep(check: RangeCheck, d: Dims, w: StorageWriter, tiles: seq<TileRaw>,
                     compress: seq<byte> -> seq<byte>, io: nat -> Io, k: nat)
    requires Shaped(d, w) && |tiles| > 0 && InRange(d, tiles[0].index) && io(k).Healthy?
    ensures var w1 := SetEntry(d, w.(data := w.data + compress(tiles[0].data)), tiles[0].index,
                               Record(|w.data|, |compress(tiles[0].data)|));
            PutTiles(check, d, w, tiles, compress, io, k) == PutTiles(check, d, w1, tiles[1..], compress, io, k + 1)
  {
    PutInRange(check, d, w, tiles[0], compress);
  }

  lemma RestInRange(d: Dims, tiles: seq<TileRaw>, io: nat -> Io, k: nat)
    requires |tiles| > 0 && AllInRange(d, tiles) && AllHealthy(io, k, |tiles|)
    ensures InRange(d, tiles[0].index) && io(k).Healthy?
    ensures AllInRange(d, tiles[1..]) && AllHealthy(io, k + 1, |tiles| - 1)
  {
    var rest := tiles[1..];
    forall j | 0 <= j < |rest|
      ensures InRange(d, rest[j].index)
    {
      assert rest[j] == tiles[j + 1];
    }
  }

  /** A run of in-range tiles with healthy I/O succeeds and appends every
      payload in order. */
  lemma {:induction false} PutTilesAppendsAll(check: RangeCheck, d: Dims, w: StorageWriter, tiles: seq<TileRaw>,
                                              compress: seq<byte> -> seq<byte>, io: nat -> Io, k: nat)
    requires Shaped(d, w) && AllInRange(d, tiles) && AllHealthy(io, k, |tiles|)
    ensures var r := PutTiles(check, d, w, tiles, compress, io, k);
            r.Done? && r.writer.data == w.data + Compressed(compress, tiles)
    decreases |tiles|
  {
    if tiles != [] {
      RestInRange(d, tiles, io, k);
      PutTilesStep(check, d, w, tiles, compress, io, k);
      var c := compress(tiles[0].data);
      var w1 := SetEntry(d, w.(data := w.data + c), tiles[0].index, Record(|w.data|, |c|));
      PutTilesAppendsAll(check, d, w1, tiles[1..], compress, io, k + 1);
      assert w.data + c + Compressed(compress, tiles[1..]) == w.data + Compressed(compress, tiles);
    }
  }

  /** ... and leaves the entries of coordinates it does not carry alone. */
  lemma {:induction false} PutTilesKeepsOthers(check: RangeCheck, d: Dims, w: StorageWriter, tiles: seq<TileRaw>,
                                               compress: seq<byte> -> seq<byte>, io: nat -> Io, k: nat, q: TileIndex)
    requires Shaped(d, w) && AllInRange(d, tiles) && AllHealthy(io, k, |tiles|)
    requires InRange(d, q) && Untouched(tiles, q)
    ensures Entry(d, PutTiles(check, d, w, tiles, compress, io, k).writer, q) == Entry(d, w, q)
    decreases |tiles|
  {
    if tiles != [] {
      RestInRange(d, tiles, io, k);
      PutTilesStep(check, d, w, tiles, compress, io, k);
      var c := compress(tiles[0].data);
      var w1 := SetEntry(d, w.(data := w.data + c), tiles[0].index, Record(|w.data|, |c|));
      var rest := tiles[1..];
      assert tiles[0].index != q;
      assert Untouched(rest, q) by {
        forall j | 0 <= j < |rest| ensures rest[j].index != q { assert rest[j] == tiles[j + 1]; }
      }
      PutTilesKeepsOthers(check, d, w1, rest, compress, io, k + 1, q);
    }
  }

  /** The first tile's record, when no later tile shares its coordinates,
      is where the run began writing. */
  lemma PutTilesRecordsFirst(check: RangeCheck, d: Dims, w: StorageWriter, tiles: seq<TileRaw>,
                             compress: seq<byte> -> seq<byte>, io: nat -> Io, k: nat)
    requires Shaped(d, w) && AllInRange(d, tiles) && AllHealthy(io, k, |tiles|)
    requires |tiles| > 0 && LastOf(tiles, 0)
    ensures Entry(d, PutTiles(check, d, w, tiles, compress, io, k).writer, tiles[0].index)
            == Record(|w.data|, |compress(tiles[0].data)|)
  {
    RestInRange(d, tiles, io, k);
    PutTilesStep(check, d, w, tiles, compress, io, k);
    var c := compress(tiles[0].data);
    var w1 := SetEntry(d, w.(data := w.data + c), tiles[0].index, Record(|w.data|, |c|));
    var rest := tiles[1..];
    assert Untouched(rest, tiles[0].index) by {
      forall j | 0 <= j < |rest| ensures rest[j].index != tiles[0].index { assert rest[j] == tiles[j + 1]; }
    }
    PutTilesKeepsOthers(check, d, w1, rest, compress, io, k + 1, tiles[0].index);
  }

  /** ... and records for tile i, when no later tile shares its
      coordinates, the offset where its payload starts. */
  lemma {:induction false} PutTilesRecords(check: RangeCheck, d: Dims, w: StorageWriter, tiles: seq<TileRaw>,
                                           compress: seq<byte> -> seq<byte>, io: nat -> Io, k: nat, i: nat)
    requires Shaped(d, w) && AllInRange(d, tiles) && AllHealthy(io, k, |tiles|)
    requires i < |tiles| && LastOf(tiles, i)
    ensures Entry(d, PutTiles(check, d, w, tiles, compress, io, k).writer, tiles[i].index)
            == Record(|w.data| + |Compressed(compress, tiles[..i])|, |compress(tiles[i].data)|)
    decreases |tiles|
  {
    if i == 0 {
      PutTilesRecordsFirst(check, d, w, tiles, compress, io, k);
      assert tiles[..0] == [];
    } else {
      RestInRange(d, tiles, io, k);
      PutTilesStep(check, d, w, tiles, compress, io, k);
      var c := compress(tiles[0].data);
      var w1 := SetEntry(d, w.(data := w.data + c), tiles[0].index, Record(|w.data|, |c|));
      LastOfRest(tiles, i);
      PutTilesRecords(check, d, w1, tiles[1..], compress, io, k + 1, i - 1);
      CompressedPrefixRest(compress, tiles, i);
    }
  }

  lemma LastOfRest(tiles: seq<TileRaw>, i: nat)
    requires 0 < i < |tiles| && LastOf(tiles, i)
    ensures tiles[1..][i - 1] == tiles[i] && LastOf(tiles[1..], i - 1)
  {
    var rest := tiles[1..];
    forall j | i - 1 < j < |rest| ensures rest[j].index != rest[i - 1].index {
      assert rest[j] == tiles[j + 1];
    }
  }

  /** The payloads of a non-empty prefix start with the first tile's. */
  lemma CompressedPrefixRest(compress: seq<byte> -> seq<byte>, tiles: seq<TileRaw>, i: nat)
    requires 0 < i <= |tiles|
    ensures Compressed(compress, tiles[..i]) == compress(tiles[0].data) + Compressed(compress, tiles[1..][..i - 1])
  {
    assert tiles[..i][0] == tiles[0] && tiles[..i][1..] == tiles[1..][..i - 1];
  }

  /** The payloads of the first i + 1 tiles are those of the first i
      followed by tile i's. */
  lemma CompressedSnoc(compress: seq<byte> -> seq<byte>, tiles: seq<TileRaw>, i: nat)
    requires i < |tiles|
    ensures Compressed(compress, tiles[..i + 1]) == Compressed(compress, tiles[..i]) + compress(tiles[i].data)
  {
    assert tiles[..i + 1] == tiles[..i] + [tiles[i]];
    CompressedAppend(compress, tiles[..i], [tiles[i]]);
    assert Compressed(compress, [tiles[i]]) == compress(tiles[i].data) + Compressed(compress, []);
  }

  /** The records of a run tile the appended bytes without gaps: each
      record ends where the next one starts, and the last one ends at the
      end of the data file. */
  lemma RecordsContiguous(check: RangeCheck, d: Dims, w: StorageWriter, tiles: seq<TileRaw>,
                          compress: seq<byte> -> seq<byte>, io: nat -> Io, k: nat, i: nat)
    requires Shaped(d, w) && AllInRange(d, tiles) && AllHealthy(io, k, |tiles|)
    requires i < |tiles| && LastOf(tiles, i)
    ensures var r := PutTiles(check, d, w, tiles, compress, io, k);
            var rec := Entry(d, r.writer, tiles[i].index);
            && (i + 1 < |tiles| && LastOf(tiles, i + 1) ==>
                  Entry(d, r.writer, tiles[i + 1].index).offset == rec.offset + rec.length)
            && (i + 1 == |tiles| ==> rec.offset + rec.length == |r.writer.data|)
  {
    PutTilesAppendsAll(check, d, w, tiles, compress, io, k);
    PutTilesRecords(check, d, w, tiles, compress, io, k, i);
    CompressedSnoc(compress, tiles, i);
    if i + 1 < |tiles| && LastOf(tiles, i + 1) {
      PutTilesRecords(check, d, w, tiles, compress, io, k, i + 1);
    }
    if i + 1 == |tiles| {
      assert tiles[..i + 1] == tiles;
    }
  }

  /** No two tiles of the run share coordinates. */
  predicate AllLast(tiles: seq<TileRaw>) {
    forall i | 0 <= i < |tiles| :: LastOf(tiles, i)
  }

  /** The sum of the lengths the index of w records for the given tiles. */
  function RecordedLength(d: Dims, w: StorageWriter, tiles: seq<TileRaw>): (n: int)
    requires Shaped(d, w) && AllInRange(d, tiles)
    decreases |tiles|
  {
    if tiles == [] then 0
    else
      assert AllInRange(d, tiles[1..]) by {
        forall j | 0 <= j < |tiles| - 1 ensures InRange(d, tiles[1..][j].index) { assert tiles[1..][j] == tiles[j + 1]; }
      }
      Entry(d, w, tiles[0].index).length + RecordedLength(d, w, tiles[1..])
  }

  /** When every tile's record has the length of its payload, the
      recorded lengths add up to the length of all payloads. */
  lemma {:induction false} RecordedLengthOfPayloads(d: Dims, w: StorageWriter, tiles: seq<TileRaw>,
                                                    compress: seq<byte> -> seq<byte>)
    requires Shaped(d, w) && AllInRange(d, tiles)
    requires forall i | 0 <= i < |tiles| :: Entry(d, w, tiles[i].index).length == |compress(tiles[i].data)|
    ensures RecordedLength(d, w, tiles) == |Compressed(compress, tiles)|
    decreases |tiles|
  {
    if tiles != [] {
      var rest := tiles[1..];
      assert AllInRange(d, rest) by {
        forall j | 0 <= j < |rest| ensures InRange(d, rest[j].index) { assert rest[j] == tiles[j + 1]; }
      }
      forall j | 0 <= j < |rest| ensures Entry(d, w, rest[j].index).length == |compress(rest[j].data)| {
        assert rest[j] == tiles[j + 1];
      }
      RecordedLengthOfPayloads(d, w, rest, compress);
    }
  }

  /** A run of tiles with distinct coordinates, in range and with healthy
      I/O, grows the data file by exactly the sum of the lengths it
      records. */
  lemma DataLengthIsRecordedSum(check: RangeCheck, d: Dims, w: StorageWriter, tiles: seq<TileRaw>,
                                compress: seq<byte> -> seq<byte>, io: nat -> Io, k: nat)
    requires Shaped(d, w) && AllInRange(d, tiles) && AllHealthy(io, k, |tiles|) && AllLast(tiles)
    ensures var r := PutTiles(check, d, w, tiles, compress, io, k);
            |r.writer.data| == |w.data| + RecordedLength(d, r.writer, tiles)
  {
    var r := PutTiles(check, d, w, tiles, compress, io, k);
    PutTilesAppendsAll(check, d, w, tiles, compress, io, k);
    forall i | 0 <= i < |tiles|
      ensures Entry(d, r.writer, tiles[i].index).length == |compress(tiles[i].data)|
    {
      PutTilesRecords(check, d, w, tiles, compress, io, k, i);
    }
    RecordedLengthOfPayloads(d, r.writer, tiles, compress);
  }

  /** A stored tile's record designates exactly its compressed payload. */
  lemma PayloadOfStored(check: RangeCheck, d: Dims, w: StorageWriter, tiles: seq<TileRaw>,
                        compress: seq<byte> -> seq<byte>, io: nat -> Io, k: nat, i: nat)
    requires Shaped(d, w) && AllInRange(d, tiles) && AllHealthy(io, k, |tiles|)
    requires i < |tiles| && LastOf(tiles, i)
    ensures var r := PutTiles(check, d, w, tiles, compress, io, k);
            && r.Done?
            && Inside(Entry(d, r.writer, tiles[i].index), |r.writer.data|)
            && Payload(r.writer.data, Entry(d, r.writer, tiles[i].index)) == compress(tiles[i].data)
  {
    PutTilesAppendsAll(check, d, w, tiles, compress, io, k);
    PutTilesRecords(check, d, w, tiles, compress, io, k, i);
    CompressedAt(compress, tiles, i);
    var all := Compressed(compress, tiles);
    var off := |Compressed(compress, tiles[..i])|;
    var c := compress(tiles[i].data);
    var data := PutTiles(check, d, w, tiles, compress, io, k).writer.data;
    assert data == w.data + all;
    SliceOfSuffix(w.data, all, off, off + |c|);
  }

  /** processHgt. A grid that does not arrive (read error, or an `.xml`
      file) and a name that does not decode leave the store untouched. */
  function ProcessHgt(check: RangeCheck, d: Dims, w: StorageWriter, name: string, src: HgtSource,
                      compress: seq<byte> -> seq<byte>, io: nat -> Io): (r: Step)
    requires d.Valid() && Shaped(d, w)
    ensures Shaped(d, r.writer)
    ensures w.data <= r.writer.data
    // only the check as written can let a put panic
    ensures r.Panicked? ==> check.AsWritten?
    // read errors are returned as they are, before anything is written
    ensures ReadHgtFile(d, name, src).Err? ==> r == Failed(ReadHgtFile(d, name, src).error, w)
    // an opened `.xml` file is skipped
    ensures src.openError.None? && ToLower(Ext(name)) == ".xml" ==> r == Done(w)
    // a grid read from a file whose name does not decode is dropped
    ensures && ReadHgtFile(d, name, src).Ok? && ToLower(Ext(name)) != ".xml"
            && (forall i: nat :: !MatchAt(ToUpper(name), i))
            ==> r == Failed(InvalidName, w)
  {
    match ReadHgtFile(d, name, src)
    case Err(e) => Failed(e, w)
    case Ok(None) => Done(w)
    case Ok(Some(grid)) =>
      match HgtIndexFromName(name)
      case Err(e) => Failed(e, w)
      case Ok(idx) => PutTiles(check, d, w, SplitDem(d, idx, grid), compress, io, 0)
  }

  lemma ProcessHgtConsistent(check: RangeCheck, d: Dims, w: StorageWriter, name: string, src: HgtSource,
                             compress: seq<byte> -> seq<byte>, io: nat -> Io)
    requires d.Valid() && Consistent(d, w)
    ensures Consistent(d, ProcessHgt(check, d, w, name, src, compress, io).writer)
  {
    match ReadHgtFile(d, name, src)
    case Err(_) =>
    case Ok(None) =>
    case Ok(Some(grid)) =>
      match HgtIndexFromName(name)
      case Err(_) =>
      case Ok(idx) => PutTilesConsistent(check, d, w, SplitDem(d, idx, grid), compress, io, 0);
  }

  /** A cell inside the globe: latitude in [-90, 90), longitude in
      [-180, 180). */
  predicate OnGlobe(idx: HgtIndex) {
    -90 <= idx.lat < 90 && -180 <= idx.lon < 180
  }

  /** Every tile of a cell on the globe has an index entry. */
  lemma CoordinatesInRange(d: Dims, idx: HgtIndex, dx: nat, dy: nat)
    requires d.Valid() && OnGlobe(idx) && dx < d.splitParts && dy < d.splitParts
    ensures InRange(d, Coordinates(d, idx, dx, dy))
  {
    var s := d.splitParts;
    MulLe(-180, idx.lon, s);
    MulLe(idx.lon + 1, 180, s);
    Distrib(idx.lon, 1, s);
    MulLe(-90, idx.lat, s);
    MulLe(idx.lat + 1, 90, s);
    Distrib(idx.lat, 1, s);
  }

  lemma CellTilesInRange(d: Dims, idx: HgtIndex, grid: seq<byte>)
    requires d.Valid() && |grid| == d.GridBytes() && OnGlobe(idx)
    ensures AllInRange(d, SplitDem(d, idx, grid))
  {
    var tiles := SplitDem(d, idx, grid);
    forall j | 0 <= j < |tiles|
      ensures InRange(d, tiles[j].index)
    {
      SlotCoordinates(d, idx, grid, j);
      SlotSplit(d.splitParts, j);
      CoordinatesInRange(d, idx, j % d.splitParts, j / d.splitParts);
    }
  }

  /** Every tile of a split is the last with its coordinates. */
  lemma SplitTilesLast(d: Dims, idx: HgtIndex, grid: seq<byte>, i: nat)
    requires d.Valid() && |grid| == d.GridBytes() && i < |SplitDem(d, idx, grid)|
    ensures LastOf(SplitDem(d, idx, grid), i)
  {
    var tiles := SplitDem(d, idx, grid);
    forall j | i < j < |tiles|
      ensures tiles[j].index != tiles[i].index
    {
      SplitCoordinatesDistinct(d, idx, grid, i, j);
    }
  }

  /** A file that reads and names a cell is put as the split of its grid. */
  lemma ProcessRunsSplit(check: RangeCheck, d: Dims, w: StorageWriter, name: string, src: HgtSource,
                         compress: seq<byte> -> seq<byte>, io: nat -> Io, grid: seq<byte>, idx: HgtIndex)
    requires d.Valid() && Shaped(d, w)
    requires ReadHgtFile(d, name, src) == Ok(Some(grid)) && HgtIndexFromName(name) == Ok(idx)
    ensures |grid| == d.GridBytes()
    ensures ProcessHgt(check, d, w, name, src, compress, io) == PutTiles(check, d, w, SplitDem(d, idx, grid), compress, io, 0)
  {
  }

  /** A file that reads and names a cell on the globe, with healthy I/O
      for its S*S puts, succeeds and grows the data file by the S*S
      payloads in split order. */
  lemma ProcessAppendsCell(check: RangeCheck, d: Dims, w: StorageWriter, name: string, src: HgtSource,
                           compress: seq<byte> -> seq<byte>, io: nat -> Io, grid: seq<byte>, idx: HgtIndex)
    requires d.Valid() && Shaped(d, w)
    requires ReadHgtFile(d, name, src) == Ok(Some(grid)) && HgtIndexFromName(name) == Ok(idx)
    requires OnGlobe(idx) && AllHealthy(io, 0, d.TileCount())
    ensures var r := ProcessHgt(check, d, w, name, src, compress, io);
            r.Done? && r.writer.data == w.data + Compressed(compress, SplitDem(d, idx, grid))
  {
    ProcessRunsSplit(check, d, w, name, src, compress, io, grid, idx);
    CellTilesInRange(d, idx, grid);
    PutTilesAppendsAll(check, d, w, SplitDem(d, idx, grid), compress, io, 0);
  }

  /** ... leaves the entries of every other cell alone ... */
  lemma ProcessKeepsOtherCells(check: RangeCheck, d: Dims, w: StorageWriter, name: string, src: HgtSource,
                               compress: seq<byte> -> seq<byte>, io: nat -> Io, grid: seq<byte>, idx: HgtIndex,
                               q: TileIndex)
    requires d.Valid() && Shaped(d, w)
    requires ReadHgtFile(d, name, src) == Ok(Some(grid)) && HgtIndexFromName(name) == Ok(idx)
    requires OnGlobe(idx) && AllHealthy(io, 0, d.TileCount())
    requires InRange(d, q) && q !in CellTiles(d, idx)
    ensures Entry(d, ProcessHgt(check, d, w, name, src, compress, io).writer, q) == Entry(d, w, q)
  {
    ProcessRunsSplit(check, d, w, name, src, compress, io, grid, idx);
    var tiles := SplitDem(d, idx, grid);
    CellTilesInRange(d, idx, grid);
    SplitCoordinates(d, idx, grid);
    assert Untouched(tiles, q) by {
      forall j | 0 <= j < |tiles| ensures tiles[j].index != q {
        assert tiles[j].index in (set t | t in tiles :: t.index);
      }
    }
    PutTilesKeepsOthers(check, d, w, tiles, compress, io, 0, q);
  }

  /** ... and points the entry of tile (dx, dy) of the cell at the
      compressed bytes of that tile. */
  lemma ProcessStoresTile(check: RangeCheck, d: Dims, w: StorageWriter, name: string, src: HgtSource,
                          compress: seq<byte> -> seq<byte>, io: nat -> Io,
                          grid: seq<byte>, idx: HgtIndex, dx: nat, dy: nat)
    requires d.Valid() && Shaped(d, w)
    requires ReadHgtFile(d, name, src) == Ok(Some(grid)) && HgtIndexFromName(name) == Ok(idx)
    requires OnGlobe(idx) && AllHealthy(io, 0, d.TileCount())
    requires dx < d.splitParts && dy < d.splitParts
    ensures InRange(d, Coordinates(d, idx, dx, dy))
    ensures var r := ProcessHgt(check, d, w, name, src, compress, io);
            && Inside(Entry(d, r.writer, Coordinates(d, idx, dx, dy)), |r.writer.data|)
            && Payload(r.writer.data, Entry(d, r.writer, Coordinates(d, idx, dx, dy)))
               == compress(SplitTile(d, idx, grid, dx, dy).data)
  {
    ProcessRunsSplit(check, d, w, name, src, compress, io, grid, idx);
    CoordinatesInRange(d, idx, dx, dy);
    var tiles := SplitDem(d, idx, grid);
    CellTilesInRange(d, idx, grid);
    SplitDemSlot(d, idx, grid, dx, dy);
    var i := dy * d.splitParts + dx;
    SplitTilesLast(d, idx, grid, i);
    PayloadOfStored(check, d, w, tiles, compress, io, 0, i);
  }

  /** ... and the data file grows by exactly the sum of the lengths the
      index records for the cell's tiles. */
  lemma ProcessDataIsRecordedSum(check: RangeCheck, d: Dims, w: StorageWriter, name: string, src: HgtSource,
                                 compress: seq<byte> -> seq<byte>, io: nat -> Io, grid: seq<byte>, idx: HgtIndex)
    requires d.Valid() && Shaped(d, w)
    requires ReadHgtFile(d, name, src) == Ok(Some(grid)) && HgtIndexFromName(name) == Ok(idx)
    requires OnGlobe(idx) && AllHealthy(io, 0, d.TileCount())
    ensures |grid| == d.GridBytes() && AllInRange(d, SplitDem(d, idx, grid))
    ensures var r := ProcessHgt(check, d, w, name, src, compress, io);
            |r.writer.data| == |w.data| + RecordedLength(d, r.writer, SplitDem(d, idx, grid))
  {
    ProcessRunsSplit(check, d, w, name, src, compress, io, grid, idx);
    var tiles := SplitDem(d, idx, grid);
    CellTilesInRange(d, idx, grid);
    forall i | 0 <= i < |tiles| ensures LastOf(tiles, i) {
      SplitTilesLast(d, idx, grid, i);
    }
    DataLengthIsRecordedSum(check, d, w, tiles, compress, io, 0);
  }

  /** For a file of a cell on the globe the code and the corrected check
      agree, so processing it never panics. */
  lemma ProcessOnGlobeAgrees(d: Dims, w: StorageWriter, name: string, src: HgtSource,
                             compress: seq<byte> -> seq<byte>, io: nat -> Io, grid: seq<byte>, idx: HgtIndex)
    requires d.Valid() && Shaped(d, w)
    requires ReadHgtFile(d, name, src) == Ok(Some(grid)) && HgtIndexFromName(name) == Ok(idx) && OnGlobe(idx)
    ensures var r := ProcessHgt(AsWritten, d, w, name, src, compress, io);
            r == ProcessHgt(Corrected, d, w, name, src, compress, io) && !r.Panicked?
  {
    ProcessRunsSplit(AsWritten, d, w, name, src, compress, io, grid, idx);
    ProcessRunsSplit(Corrected, d, w, name, src, compress, io, grid, idx);
    CellTilesInRange(d, idx, grid);
    PutTilesChecksAgree(d, w, SplitDem(d, idx, grid), compress, io, 0);
  }

  /** A file whose first put does not succeed ends with that put's
      outcome: the rest of its tiles are never put. */
  lemma ProcessFirstPutFails(check: RangeCheck, d: Dims, w: StorageWriter, name: string, src: HgtSource,
                             compress: seq<byte> -> seq<byte>, io: nat -> Io, grid: seq<byte>, idx: HgtIndex)
    requires d.Valid() && Shaped(d, w)
    requires ReadHgtFile(d, name, src) == Ok(Some(grid)) && HgtIndexFromName(name) == Ok(idx)
    requires |grid| == d.GridBytes()
    requires !PutTileWith(check, d, w, SplitTile(d, idx, grid, 0, 0), compress, io(0)).Done?
    ensures ProcessHgt(check, d, w, name, src, compress, io)
            == PutTileWith(check, d, w, SplitTile(d, idx, grid, 0, 0), compress, io(0))
  {
    ProcessRunsSplit(check, d, w, name, src, compress, io, grid, idx);
    SplitDemSlot(d, idx, grid, 0, 0);
    var tiles := SplitDem(d, idx, grid);
    PutTilesUnfold(check, d, w, tiles[0], tiles[1..], compress, io, 0);
    assert [tiles[0]] + tiles[1..] == tiles;
  }

  /** The name `N00E180.hgt` decodes to the cell at longitude 180, just
      east of the globe. */
  lemma EdgeCellName()
    ensures HgtIndexFromName("N00E180.hgt") == Ok(HgtIndex(0, 180))
  {
    var c := HgtIndex(0, 180);
    assert HgtFileName(c) + "" == "N00E180.hgt" by {
      assert TwoDigits(0) == "00" && ThreeDigits(180) == "180";
    }
    NameRoundTrip(c, "");
  }

  /** As written, a readable file of that cell whose first put meets
      healthy I/O dies in the index store of its first tile, at X = 180*S,
      after the tile's bytes reached the data file. */
  lemma EdgeCellPanicsAsWritten(d: Dims, w: StorageWriter, src: HgtSource, compress: seq<byte> -> seq<byte>,
                                io: nat -> Io, grid: seq<byte>)
    requires d.Valid() && Shaped(d, w)
    requires ReadHgtFile(d, "N00E180.hgt", src) == Ok(Some(grid)) && io(0).Healthy?
    ensures |grid| == d.GridBytes()
    ensures var r := ProcessHgt(AsWritten, d, w, "N00E180.hgt", src, compress, io);
            && r.Panicked?
            && r.writer.data == w.data + compress(SplitTile(d, HgtIndex(0, 180), grid, 0, 0).data)
  {
    var idx := HgtIndex(0, 180);
    EdgeCellName();
    ProcessRunsSplit(AsWritten, d, w, "N00E180.hgt", src, compress, io, grid, idx);
    var t := SplitTile(d, idx, grid, 0, 0);
    PanicsOnFarEdge(d, w, t, compress);
    ProcessFirstPutFails(AsWritten, d, w, "N00E180.hgt", src, compress, io, grid, idx);
  }

  /** With the corrected check, a file of that cell is rejected before a
      byte is written. */
  lemma EdgeCellRejected(d: Dims, w: StorageWriter, src: HgtSource, compress: seq<byte> -> seq<byte>,
                         io: nat -> Io, grid: seq<byte>)
    requires d.Valid() && Shaped(d, w)
    requires ReadHgtFile(d, "N00E180.hgt", src) == Ok(Some(grid))
    ensures ProcessHgt(Corrected, d, w, "N00E180.hgt", src, compress, io) == Failed(IndexOutOfRange, w)
  {
    EdgeCellName();
    ProcessRunsSplit(Corrected, d, w, "N00E180.hgt", src, compress, io, grid, HgtIndex(0, 180));
    SplitDemSlot(d, HgtIndex(0, 180), grid, 0, 0);
  }

  /** The name `N00W181.hgt` decodes to the cell at longitude -181, just
      west of the globe. */
  lemma WestCellName()
    ensures HgtIndexFromName("N00W181.hgt") == Ok(HgtIndex(0, -181))
  {
    var c := HgtIndex(0, -181);
    assert HgtFileName(c) + "" == "N00W181.hgt" by {
      assert TwoDigits(0) == "00" && ThreeDigits(181) == "181";
    }
    NameRoundTrip(c, "");
  }

  /** As written, the first tile of that cell (X = -181*S) is appended to
      the data file and only then rejected; no index entry refers to the
      appended bytes. */
  lemma WestCellGrowsAsWritten(d: Dims, w: StorageWriter, src: HgtSource, compress: seq<byte> -> seq<byte>,
                               io: nat -> Io, grid: seq<byte>)
    requires d.Valid() && Shaped(d, w)
    requires ReadHgtFile(d, "N00W181.hgt", src) == Ok(Some(grid)) && io(0).Healthy?
    ensures |grid| == d.GridBytes()
    ensures var r := ProcessHgt(AsWritten, d, w, "N00W181.hgt", src, compress, io);
            && r == Failed(IndexOutOfRange, r.writer)
            && r.writer.index == w.index
            && r.writer.data == w.data + compress(SplitTile(d, HgtIndex(0, -181), grid, 0, 0).data)
  {
    var idx := HgtIndex(0, -181);
    WestCellName();
    ProcessRunsSplit(AsWritten, d, w, "N00W181.hgt", src, compress, io, grid, idx);
    var t := SplitTile(d, idx, grid, 0, 0);
    PanicsOnFarEdge(d, w, t, compress);
    ProcessFirstPutFails(AsWritten, d, w, "N00W181.hgt", src, compress, io, grid, idx);
  }

  /** With the corrected check, that file is rejected before a byte is
      written. */
  lemma WestCellRejected(d: Dims, w: StorageWriter, src: HgtSource, compress: seq<byte> -> seq<byte>,
                         io: nat -> Io, grid: seq<byte>)
    requires d.Valid() && Shaped(d, w)
    requires ReadHgtFile(d, "N00W181.hgt", src) == Ok(Some(grid))
    ensures ProcessHgt(Corrected, d, w, "N00W181.hgt", src, compress, io) == Failed(IndexOutOfRange, w)
  {
    WestCellName();
    ProcessRunsSplit(Corrected, d, w, "N00W181.hgt", src, compress, io, grid, HgtIndex(0, -181));
    SplitDemSlot(d, HgtIndex(0, -181), grid, 0, 0);
  }
}
