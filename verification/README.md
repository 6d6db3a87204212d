# Elevation tile store builder: a Dafny model

This project models the core of the builder that turns one-degree HGT elevation
files into a tile store. The store has two parts: a data file of compressed tiles,
and a dense index that maps every tile of the globe to an (offset, length) record
in that file. For each input file the builder does four things:

1. It reads the file. It picks a decoder from the lower-cased extension
   (`.hgt`, `.bz2`, `.gz`), skips `.xml` files and rejects any other extension.
   It checks that the decoded stream holds exactly N·N·2 bytes and swaps the two
   bytes of every sample.
2. It decodes the cell `(lat, lon)` from the file name, for example
   `N45E007.hgt` or `s10w070.hgt.gz`.
3. It cuts the N×N grid into S×S tiles of T×T samples. Neighbouring tiles
   share one row or one column. Tile `(dx, dy)` gets the global coordinates
   `(lon·S + dx, lat·S + dy)`.
4. It puts the tiles into the writer one by one and stops at the first error.
   Each put compresses the tile, appends the bytes to the data file and records
   their position in the index.

The package constants N (`HgtSize`), S (`HgtSplitParts`) and T (`TileSize`)
are not fixed numbers here. They are a `Dims` value, and every result holds for
any dimensions with `S ≥ 1`, `T ≥ 2` and `N = S·(T−1)+1`.

Modules:

- `Base`: bytes, `Option`/`Result`, the builder's errors, and ASCII case mapping.
- `Dem`: the shared dimensions and records, plus index arithmetic.
- `HgtName`: decoding the file name.
- `HgtReader`: reading one file.
- `TileSplit`: splitting the grid into tiles.
- `DemWriter`: `PutTile`.
- `MakeData`: `processHgt` and the run of puts.

The compressor is a function parameter. The model uses nothing about it except
that it is a function, so the same tile always compresses to the same bytes.

The operating system and the decoders are parameters too:

- A `HgtSource` says whether the file opens, whether a gzip header parses, and
  which bytes (or error) each decoder yields.
- An `Io` value says whether the data file's position query and write succeed
  on a put. A run of puts takes `io: nat -> Io`, with one value per put.

The data file is the sequence of bytes written so far. The writer appends and
never seeks elsewhere, so the position it asks for is always the file's length.

Two behaviours of the code shape the model:

- **Orientation of tile rows.** Row `r` of tile `(dx, dy)` reads grid row
  `N−1−dy·(T−1)−r`. Grid row 0 is the northern edge, so tile row 0 is the
  southern row of band `dy`, and the rows run northwards. `TileSample` states
  this mapping.
- **Range check in `PutTile`.** `PutTile` writes the compressed tile before
  it checks the tile's position, and its upper bounds are not strict.
  `DemWriter.PutTile` models the code as written. `DemWriter.PutTileStrict`
  checks first and strictly; it is the corrected put of "Findings". Every put
  of the run in `MakeData` applies a `RangeCheck`: `AsWritten` is the
  code's put and `Corrected` the strict one, so `ProcessHgt(AsWritten, …)`
  is `processHgt` as written. On every cell inside the globe (`OnGlobe`:
  `−90 ≤ lat < 90`, `−180 ≤ lon < 180`) the two agree and nothing panics
  (`ProcessOnGlobeAgrees`). A file named for a cell outside the globe can
  make the code panic (`EdgeCellPanicsAsWritten`) or leave unreferenced
  bytes in the data file (`WestCellGrowsAsWritten`).

## Model

| member | source | states |
|---|---|---|
| `HgtName.FindMatch` | cmd/make_data/main.go:68-69 | The search returns the leftmost position at or after `from` where `[NS]dd[EW]ddd.HGT` fits, and no position when it fits nowhere. |
| `HgtName.CellAt` | cmd/make_data/main.go:71-80 | A match decodes to latitude in [−99, 99] and longitude in [−999, 999]. A negative value comes only from `S`/`W`, and `S`/`W` never gives a positive one. |
| `HgtName.HgtIndexFromName` | cmd/make_data/main.go:67-84 | A name decodes exactly when its upper-cased form contains the pattern somewhere. Otherwise the error is "invalid HGT file name". A decoded cell is within the two-digit and three-digit bounds. |
| `HgtName.DecodesLeftmostMatch` | cmd/make_data/main.go:69-80 | When the pattern occurs several times, the first occurrence decides the cell. |
| `HgtName.CaseInsensitive` | cmd/make_data/main.go:69 | Names that upper-case alike decode alike. |
| `HgtName.NameRoundTrip` | cmd/make_data/main.go:67-84 | Decoding the canonical name of any cell, followed by any suffix (such as `.gz`), gives the cell back. |
| `HgtName.ExampleSouthWest` | cmd/make_data/main.go:74-79 | `s10w070.hgt` decodes to (−10, −70). |
| `HgtName.ExampleNorthEast` | cmd/make_data/main.go:67-84 | `N45E007.HGT` decodes to (45, 7). |
| `HgtName.ExampleCompressedName` | cmd/make_data/main.go:68-69 | `N45E007.hgt.gz` decodes to (45, 7), because the pattern is not anchored. |
| `HgtName.ExampleGarbage` | cmd/make_data/main.go:83 | `garbage.hgt` is rejected with "invalid HGT file name". |
| `HgtReader.Ext` | cmd/make_data/main.go:31 | The extension is a suffix of the path. It is empty, or it is a `.` followed by characters that are neither `.` nor `/`. |
| `HgtReader.ExtOfSuffix` | cmd/make_data/main.go:31 | A path that ends in such a `.xyz` has exactly that extension. |
| `HgtReader.Swapped` | cmd/make_data/main.go:60-63 | Byte k of the result is byte k of the input with the two bytes of each sample exchanged, and the length is unchanged. |
| `HgtReader.SwapInvolution` | cmd/make_data/main.go:60-63 | Swapping twice gives the original buffer back. |
| `HgtReader.SwapSampleBytes` | cmd/make_data/main.go:60-64 | The sample loop, which fills a zeroed buffer pair by pair, computes `Swapped`. |
| `HgtReader.CheckAndSwap` | cmd/make_data/main.go:53-64 | A read error passes through. A stream of the wrong size is "invalid HGT size". A stream of exactly N·N·2 bytes is delivered, swapped. |
| `HgtReader.ReadHgtFile` | cmd/make_data/main.go:30-65 | An open error comes first. Only an opened `.xml` file yields nothing with no error. An unknown extension is reported with the lower-cased extension. A gzip header that does not parse is an error. Once the stream is read, a read error passes through, a wrong-size stream is rejected, and a stream of exactly N·N·2 bytes is delivered, swapped. Every delivered grid is such a stream. |
| `HgtReader.ExtensionCaseIgnored` | cmd/make_data/main.go:31 | `N45E007.HGT` is read like `N45E007.hgt`, and likewise for every extension. |
| `HgtReader.SameExtensionSameRead` | cmd/make_data/main.go:31-52 | The read depends on the path only through its lower-cased extension. |
| `TileSplit.RowInGrid` | cmd/make_data/main.go:95-98 | With N = S·(T−1)+1, every row a tile reads is a grid row, and its T samples lie inside that row and inside the buffer. |
| `TileSplit.TileRows` | cmd/make_data/main.go:95-98 | The reference content of a tile's first k rows has k·T·2 bytes. |
| `TileSplit.CopyRowsFill` | cmd/make_data/main.go:95-101 | The row-copy loop never reaches the panic. Every copy moves exactly T·2 bytes, and the filled tile buffer equals the tile's reference rows. |
| `TileSplit.TileData` | cmd/make_data/main.go:92-101 | A tile's payload has T·T·2 bytes. |
| `TileSplit.SplitTile` | cmd/make_data/main.go:89-101 | The tile built for (dx, dy) carries `Coordinates(dx, dy)`, and its payload is the reference rows. |
| `TileSplit.SplitDem` | cmd/make_data/main.go:86-106 | The split has S·S tiles. |
| `TileSplit.SplitDemSlot` | cmd/make_data/main.go:89-94 | Tile (dx, dy) sits at slot dy·S + dx, inside the array. |
| `TileSplit.TileRowsByte` | cmd/make_data/main.go:96-98 | Byte j of tile row r is byte j of that row's slice of the grid. |
| `TileSplit.TileSample` | cmd/make_data/main.go:96-98 | Sample (r, c) of tile (dx, dy) is grid sample (N−1−dy·(T−1)−r, dx·(T−1)+c), both bytes of it. |
| `TileSplit.SharedColumn` | cmd/make_data/main.go:96-97 | The last column of tile (dx, dy) equals the first column of tile (dx+1, dy). |
| `TileSplit.SharedRow` | cmd/make_data/main.go:96-97 | The last row of tile (dx, dy) equals the first row of tile (dx, dy+1). |
| `TileSplit.LocateAxis` | cmd/make_data/main.go:96-97 | Every grid position along an axis is offset < T of some band < S. |
| `TileSplit.EverySampleKept` | cmd/make_data/main.go:86-106 | Every byte of every grid sample reappears in some tile, so no sample is lost. |
| `TileSplit.SlotCoordinates` | cmd/make_data/main.go:89-94 | Slot i holds the tile at (lon·S + i mod S, lat·S + i div S). |
| `TileSplit.SplitCoordinatesDistinct` | cmd/make_data/main.go:89-94 | Distinct slots hold tiles with distinct coordinates. |
| `TileSplit.SlotInCell` | cmd/make_data/main.go:89-91 | The coordinates of slot i belong to the cell's S·S tile coordinates. |
| `TileSplit.InCellTiles` | cmd/make_data/main.go:89-90 | Every (dx, dy) with dx, dy < S gives one of the cell's tile coordinates. |
| `TileSplit.CellInSplit` | cmd/make_data/main.go:87-94 | Every tile coordinate of the cell is carried by some tile of the split. |
| `TileSplit.SplitCoordinates` | cmd/make_data/main.go:86-106 | The coordinates of the split are exactly {(lon·S + dx, lat·S + dy) : dx, dy < S}. |
| `DemWriter.Empty` | pkg/dem/writer.go:37 | A fresh writer has an empty data file, every entry is absent `(0, 0)`, and the index has the shape (360·S) × (180·S). |
| `DemWriter.SetEntry` | pkg/dem/writer.go:76 | An index store changes the one entry addressed and no other, and the index keeps its shape. |
| `DemWriter.PutTile` | pkg/dem/writer.go:59-78 | See the list below this table. |
| `DemWriter.PanicsOnFarEdge` | pkg/dem/writer.go:71-76 | With healthy I/O the store panics exactly when the shifted position passes the non-strict check but lies outside the index. |
| `DemWriter.EasternEdgePanics` | pkg/dem/writer.go:71-76 | A tile at X = 180·S panics. |
| `DemWriter.RejectedTileGrowsData` | pkg/dem/writer.go:67-75 | A tile west of the index is rejected, but its bytes stay in the data file. |
| `DemWriter.PutTileStrict` | pkg/dem/writer.go:59-78 | The corrected put never panics. An out-of-range tile is rejected with nothing written. An in-range tile is put as the code puts it. |
| `DemWriter.StrictPutOutcome` | pkg/dem/writer.go:59-78 | With healthy I/O, the corrected put succeeds exactly for in-range tiles, appends the whole payload on success, and leaves the writer untouched on rejection. |
| `DemWriter.EmptyConsistent` | pkg/dem/writer.go:37 | A fresh writer, with an empty file and all entries absent, is consistent. |
| `DemWriter.GrowConsistent` | pkg/dem/writer.go:67 | Appending bytes keeps every entry inside the file and keeps entries apart. |
| `DemWriter.StoreConsistent` | pkg/dem/writer.go:63-76 | Recording the bytes just appended keeps the writer consistent, because the new record starts where every old one ends. |
| `DemWriter.PutTileConsistent` | pkg/dem/writer.go:59-78 | Every outcome of a put keeps the writer consistent. A stored tile's record designates exactly its compressed bytes. |
| `DemWriter.PutTileStrictConsistent` | pkg/dem/writer.go:59-78 | The same holds for the corrected put. |
| `DemWriter.PutTileWith` | pkg/dem/writer.go:59-78 | A put under either range check grows the data file by a prefix of the payload. Both checks put an in-range tile as the code does. The corrected one never panics and rejects an out-of-range tile with nothing written. |
| `DemWriter.PutTileWithConsistent` | pkg/dem/writer.go:59-78 | Under either check, a put keeps the writer consistent, and a stored record designates the tile's compressed bytes. |
| `MakeData.CompressedAppend` | pkg/dem/writer.go:67 | The payloads of a + b are those of a followed by those of b. |
| `MakeData.CompressedAt` | pkg/dem/writer.go:63-67 | Tile i's payload sits in the concatenation right after the payloads of the tiles before it. |
| `MakeData.PutTiles` | cmd/make_data/main.go:117-121 | A run of puts keeps the index shape. The data file only grows, and always holds a prefix of the intended payloads after its old content. A run panics only under the check as written, and only if some tile lies outside the index. |
| `MakeData.PutTilesUnfold` | cmd/make_data/main.go:117-121 | A non-empty run is its first put and then, only if that put succeeded, the rest of the run from the next I/O state. A failed or panicking first put is the run's outcome. |
| `MakeData.PutTilesAppend` | cmd/make_data/main.go:117-121 | Putting a + b is putting a and then, only if every put of a succeeded, putting b from I/O state k + \|a\|. The run stops at its first failure. |
| `MakeData.PutTilesChecksAgree` | cmd/make_data/main.go:117-121 | On tiles that are all in range, the run as written and the corrected run have the same outcome. |
| `MakeData.PutTilesConsistent` | cmd/make_data/main.go:117-121 | Under either range check, every run keeps a consistent writer consistent, including the writer a panic leaves behind. |
| `MakeData.PutInRange` | pkg/dem/writer.go:59-78 | Under either check, with healthy I/O, an in-range put appends the payload and records `(old length, payload length)`. |
| `MakeData.PutTilesStep` | cmd/make_data/main.go:117-121 | A run whose first put is in range with healthy I/O continues with the rest of the tiles on the updated writer. |
| `MakeData.RestInRange` | cmd/make_data/main.go:117 | The rest of a run that is in range with healthy I/O is also in range with healthy I/O. |
| `MakeData.PutTilesAppendsAll` | cmd/make_data/main.go:117-121 | With healthy I/O and in-range tiles, the run succeeds and the data file grows by exactly the payloads, in order. |
| `MakeData.PutTilesKeepsOthers` | cmd/make_data/main.go:117-121 | Entries of coordinates that no tile carries are unchanged. |
| `MakeData.PutTilesRecordsFirst` | cmd/make_data/main.go:117-121 | When no later tile shares the first tile's coordinates, its entry is (old length of the data file, its payload length). |
| `MakeData.PutTilesRecords` | cmd/make_data/main.go:117-121 | The entry of tile i (the last one, when coordinates repeat) is (old length + bytes of the earlier payloads, its payload length). |
| `MakeData.CompressedSnoc` | pkg/dem/writer.go:67 | The payloads of the first i + 1 tiles are those of the first i followed by tile i's. |
| `MakeData.RecordsContiguous` | pkg/dem/writer.go:61-76 | The records of a run tile the appended bytes without gaps: each ends where the next begins, and the last ends at the end of the data file. |
| `MakeData.RecordedLengthOfPayloads` | pkg/dem/writer.go:61-76 | When every tile's record has its payload's length, the recorded lengths add up to the length of all payloads together. |
| `MakeData.DataLengthIsRecordedSum` | cmd/make_data/main.go:117-121 | For a run of distinct coordinates, in range with healthy I/O, the data file grows by exactly the sum of the lengths the index records for the run. |
| `MakeData.PayloadOfStored` | cmd/make_data/main.go:117-121 | That entry lies inside the data file and designates exactly tile i's compressed bytes. |
| `MakeData.ProcessHgt` | cmd/make_data/main.go:108-123 | Read errors and open errors are returned before anything is written. An opened `.xml` file is skipped. A name without the pattern drops a grid that has been read. The data file only grows. Only the check as written can panic. |
| `MakeData.ProcessHgtConsistent` | cmd/make_data/main.go:108-123 | Under either check, processing a file keeps a consistent writer consistent. |
| `MakeData.CoordinatesInRange` | cmd/make_data/main.go:89-90 | Every tile of a cell on the globe has an index entry. |
| `MakeData.CellTilesInRange` | cmd/make_data/main.go:117 | Every tile of a split of a cell on the globe is in range. |
| `MakeData.SplitTilesLast` | cmd/make_data/main.go:89-94 | No tile of a split shares its coordinates with a later one. |
| `MakeData.ProcessRunsSplit` | cmd/make_data/main.go:108-121 | A file that reads and names a cell is put as the split of its grid, in slot order. |
| `MakeData.ProcessAppendsCell` | cmd/make_data/main.go:108-123 | For a readable file of a cell on the globe, with healthy I/O, processing succeeds and the data file grows by the S·S payloads. |
| `MakeData.ProcessKeepsOtherCells` | cmd/make_data/main.go:108-123 | In that case, no entry outside the cell changes. |
| `MakeData.ProcessStoresTile` | cmd/make_data/main.go:108-123 | In that case, the entry of tile (dx, dy) designates exactly the compressed payload of that tile. |
| `MakeData.ProcessDataIsRecordedSum` | cmd/make_data/main.go:108-123 | In that case, the data file grows by exactly the sum of the lengths recorded for the cell's tiles. |
| `MakeData.ProcessOnGlobeAgrees` | cmd/make_data/main.go:108-123 | For a readable file of a cell on the globe, `processHgt` as written and the corrected one have the same outcome, whatever the I/O, and neither panics. |
| `MakeData.ProcessFirstPutFails` | cmd/make_data/main.go:117-120 | A file whose first put does not succeed ends with that put's outcome. |
| `MakeData.EdgeCellName` | cmd/make_data/main.go:67-84 | `N00E180.hgt` decodes to the cell at longitude 180. |
| `MakeData.EdgeCellPanicsAsWritten` | pkg/dem/writer.go:71-76 | As written, a readable file of that cell panics at its first put when that put has healthy I/O. The tile's bytes have already been appended. |
| `MakeData.EdgeCellRejected` | cmd/make_data/main.go:108-123 | With the corrected check, a readable file of that cell is rejected with "tile index out of range" and the writer unchanged. |
| `MakeData.WestCellName` | cmd/make_data/main.go:67-84 | `N00W181.hgt` decodes to the cell at longitude −181. |
| `MakeData.WestCellGrowsAsWritten` | pkg/dem/writer.go:67-75 | As written, with healthy I/O for its first put, a readable file of that cell fails with "tile index out of range" after its first tile's bytes are appended. The index is unchanged, so no entry refers to those bytes. |
| `MakeData.WestCellRejected` | cmd/make_data/main.go:108-123 | With the corrected check, that file is rejected with the writer unchanged. |

What `DemWriter.PutTile` states:

- A failed position query changes nothing.
- A failed write keeps the bytes that reached the file and leaves the index alone.
- With healthy I/O, the whole payload is appended whatever happens next.
- The put succeeds exactly for in-range tiles. It then records
  `(old length, payload length)` at the tile's entry and changes no other entry.
- A rejection leaves the index alone. The data file only ever grows, by a
  prefix of the payload.
- A panic needs healthy I/O and a tile outside the index.

`Consistent` means two things. Every entry lies inside the data file. Entries
at different positions do not share a byte, and empty entries, including the
absent `(0, 0)`, share none.

## Left out

- Concurrency: `makeTiles`, the worker pool and the writer's mutex are not
  modelled. Puts are modelled in the order one file issues them. Puts from
  other files can interleave between them, and each such put is again a
  `PutTile` step that preserves `Consistent`.
- `main`, flag parsing and the progress bar: command-line plumbing.
- `NewWriter` and `Close`: file creation and gob encoding of the index.
  `Empty` is the state `NewWriter` leaves.
- The compressor (`compressTile`, LZ4 at level 12) is an arbitrary function
  parameter. Its output is not constrained, so nothing here depends on the
  codec.
- The bzip2 and gzip decoders, `os.Open` and `ioutil.ReadAll` are external.
  What they yield is given as a `HgtSource`.
- `path.Join(hgtDir, filename)`: `ReadHgtFile` receives the file name. For a
  directory entry name, the extension of the joined path is the extension of
  the name.
- `HgtReader.Ext`: modelled for '/' as the only separator (the build's
  platform). A volume name is not modelled.
- `Base.ToLower`: ASCII only. Go's `strings.ToLower` is Unicode, so the
  "unknown hgt file extension" error for an extension such as `.ÄB` reads
  `.äb` in Go and `.Äb` here. Which decoder is chosen is unaffected, because
  every extension the code accepts is ASCII.
- `Base.ToUpper`: ASCII only. Go's `strings.ToUpper` also maps 'ſ' to
  'S', so a name spelling `ſ` where the pattern needs `S` matches in Go. The model does not follow that.
- Integer width: coordinates and offsets are unbounded integers. With the
  cell ranges a name can spell (|lat| ≤ 99, |lon| ≤ 999) and any realistic S,
  no Go `int` or `int64` overflows.
- `DemWriter.PutTile`: a partial write is modelled as a prefix of the payload
  reaching the file and the position advancing by it. Short writes reported
  without an error are not modelled, because `os.File.Write` always reports
  them as errors.

## Findings

| source | as written | input that shows it | evidently intended | confidence | as-written member | corrected member |
|---|---|---|---|---|---|---|
| pkg/dem/writer.go:73-76 | The upper bounds are checked with `>` against the index lengths, so a shifted position equal to the length passes the check and the store on line 76 panics with index out of range | a file named `N00E180.hgt` (first tile X = 180·S, shifted x = 360·S), or `N90E000.hgt` (y = 180·S) | `>=`: reject the position with "tile index out of range" | high, not executed | `MakeData.EdgeCellPanicsAsWritten` | `MakeData.EdgeCellRejected` |
| pkg/dem/writer.go:67-75 | The compressed tile is written before the range check, so a rejected tile still adds its bytes to the data file, where no index entry refers to them | a tile with X = −180·S − 1, or the first tile of `N00W181.hgt` (X = −181·S) | check the range before writing, leaving the file untouched | medium, not executed | `MakeData.WestCellGrowsAsWritten` | `MakeData.WestCellRejected` |
