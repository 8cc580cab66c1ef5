# Ray1DataExtractor, modelled in Dafny

Ray1DataExtractor holds two tools for the educational and fan releases of
Rayman 1, on PC and PS1.

The **data extractor** walks game folders and their volumes. For every
level file it composes the level's tile map into an RGBA picture. It also
keeps a table of picture hashes per level and per game, writes a CSV sheet
of those hashes, and writes sound samples as WAV files. Further commands
write quoted CSV sheets of levels and versions. For each volume it picks
the engine version from marker files. The versions sheet and the scripts
export also read the `COMMON.DAT` archive: on PS1 from the volume's folder,
elsewhere from `PCMAP`.

The **scripts extractor** exports every script of a volume to a JSON file
named after the script and the volume. It also writes a tab-separated
sheet of the world map.

This project models the logic of both tools as Dafny functions, methods
and a class:

- `Level`: a decoded level file and the texture lookup. A tile index is
  looked up in the offset table. The first texture with that offset, in
  the opaque textures followed by the transparent ones, is the tile's
  texture.
- `Raster`: the compositor. `ComposeRaster` fills an `array<byte>` in the
  source's four nested loops: tile rows, tiles, pixel rows, pixels. The
  body of the two inner loops is split into the methods `DrawTile`,
  `DrawPixelAt` and `StorePixel`. Every byte is proved equal to
  `RasterByte`, a function of the level and the byte index.
  - The byte index `((tileY·16 + y)·width + tileX·16 + x)·4 + channel` is
    proved to be a bijection between in-range coordinates and buffer
    positions. So every byte is written exactly once.
- `RasterProperties`: what a pixel shows.
  - Colour is black for a hidden tile. A tile is hidden when it has no
    texture, when its tile index is 0, or when its texture carries the
    0xAAAAAAAA tag.
  - Otherwise the colour comes from palette 0 at the inverted index
    255 − ImgData.
  - Alpha comes from the mask of a transparent texture, and otherwise
    from the colour.
- `LevelHashes`: the hash table as a class.
  - `levelHashes` is a map from level name to hash list.
  - `gameNames` and `currentGameIndex` track the games.
  - `RecordHash` pads the list with `""` up to the current game index, then
    inserts the hash there.
  - `RenderSheet` writes the summary CSV.
- `Sheets`: the text a `StringBuilder` builds when each cell is appended
  with a separator after it and each row ends with a line break. A reader
  is proved to recover the rows.
- `DataExtractor`: the smaller rules of the data extractor.
  - the engine-version priority of the marker files;
  - the `COMMON.DAT` and `SPECIAL.DAT` paths;
  - the quoted CSV cell writer;
  - the fields of the WAV format chunk, in `uint`, `int` and `ushort`
    arithmetic.
- `ScriptsExtractor`:
  - script output names and the `WLDMAP{n:00}` name;
  - `CreateWorldMapSheet`, a method proved equal to the specification
    `WorldMapSheet`. It either returns the sheet or raises the exception
    the source would raise first.
- `Text`: the .NET string operations used: `String.Join`, `Replace` of a
  character by the empty string, `Trim(char)`, decimal rendering and the
  `00` format.
- `Common`: machine integer widths, `Option`, `Result` and the two
  exceptions. `IndexOutOfRange` is an out-of-range array index;
  `LevelVariations` is the "level variations" exception of the world-map
  sheet.

Two consequences of the code are easy to miss:

- **A hidden pixel is not always (0,0,0,0).** A `TransparentBlockTexture`
  keeps the alpha of its mask even when its tile index is 0 or its
  transparency mode is 0xAAAAAAAA (MainWindowViewModel.cs:198-208). Only
  red, green and blue are forced to zero. `RasterProperties.AlphaOfPixel`
  states this rule and `RasterProperties.TileZeroKeepsMaskAlpha` shows a
  concrete instance.
- **Tile index 0 still reads the offset table.** It is looked up like any
  other index, so it can resolve to a texture. The lookup raises only when
  there is at least one texture: the index is read inside the search
  predicate, which never runs on an empty list (`Level.ResolveTexture`).

Line breaks are `"\r\n"`, the value of `Environment.NewLine` on Windows.

## Model

| member | source | states |
|---|---|---|
| Level.BlockTextures | src/Ray1DataExtractor/MainWindowViewModel.cs:175-177 | the list searched is the opaque textures followed by the transparent ones, index by index |
| Level.FirstWithOffset | src/Ray1DataExtractor/MainWindowViewModel.cs:191-192 | `FirstOrDefault`: no result exactly when no texture has the key; otherwise the result is a texture with the key, and no earlier texture has it |
| Level.ResolveTexture | src/Ray1DataExtractor/MainWindowViewModel.cs:191-192 | the lookup raises exactly when there is a texture and the tile index is past the offset table; otherwise it is the first match on the offset the table gives |
| Level.EarlierDuplicateWins | src/Ray1DataExtractor/MainWindowViewModel.cs:191-192 | of two textures with the same offset, the earlier one is used |
| Level.OpaqueShadowsTransparent | src/Ray1DataExtractor/MainWindowViewModel.cs:175-177 | an opaque texture with the key is always chosen over any transparent one |
| Level.ResolvedTextureBelongsToLevel | src/Ray1DataExtractor/MainWindowViewModel.cs:175-177 | a found texture is one of the level's textures |
| Level.FirstMatchTableAgrees | src/Ray1DataExtractor/MainWindowViewModel.cs:191-192 | a precomputed offset-to-texture map built without overwriting agrees with the linear first-match scan on every key |
| Raster.CoordOfByteIndex | src/Ray1DataExtractor/MainWindowViewModel.cs:202-210 | the byte of an in-range pixel channel lies inside the buffer, and the coordinate can be recovered from its index |
| Raster.ByteIndexOfCoord | src/Ray1DataExtractor/MainWindowViewModel.cs:184-211 | every buffer position is the byte of some in-range tile, pixel and channel, so no byte is left unwritten |
| Raster.ByteIndexInjective | src/Ray1DataExtractor/MainWindowViewModel.cs:202-210 | two different pixel channels never share a byte, so no byte is written twice |
| Raster.ComposeRaster | src/Ray1DataExtractor/MainWindowViewModel.cs:179-214 | the buffer has (Width·16)·(Height·16)·4 bytes and every byte is the specified pixel byte; it raises IndexOutOfRange exactly when some tile's lookup raises |
| Raster.PixelColor | src/Ray1DataExtractor/MainWindowViewModel.cs:198-200 | a hidden tile's colour is (0,0,0,0); a visible tile's colour is an entry of palette 0 |
| Raster.PixelByte | src/Ray1DataExtractor/MainWindowViewModel.cs:204-210 | red, green and blue of a hidden tile are 0; alpha is the mask value for a transparent texture, and 0 for a hidden tile without one |
| Raster.DrawTile | src/Ray1DataExtractor/MainWindowViewModel.cs:194-212 | drawing one tile's 16×16 pixels in row-major order extends the drawn prefix of the buffer past that tile, and every byte outside the tile keeps its old value |
| Raster.DrawPixelAt | src/Ray1DataExtractor/MainWindowViewModel.cs:198-210 | exactly the pixel's four bytes change, to its specified colour and alpha, extending the drawn prefix by one pixel |
| Raster.StorePixel | src/Ray1DataExtractor/MainWindowViewModel.cs:204-210 | the four channel bytes at the pixel's index are set and no other byte changes |
| Raster.DrawPixel | src/Ray1DataExtractor/MainWindowViewModel.cs:198-210 | a buffer drawn up to a pixel, with that pixel's four bytes then set, is drawn up to the next pixel |
| RasterProperties.RasterByteAt | src/Ray1DataExtractor/MainWindowViewModel.cs:202 | the buffer byte at a coordinate's index is that coordinate's pixel byte |
| RasterProperties.TileTexture | src/Ray1DataExtractor/MainWindowViewModel.cs:190-192 | the texture found for a tile is well formed and one of the level's textures |
| RasterProperties.HiddenTileHasNoColour | src/Ray1DataExtractor/MainWindowViewModel.cs:198-206 | with no texture, tile index 0 or transparency mode 0xAAAAAAAA, red, green and blue are 0 |
| RasterProperties.VisiblePixelUsesFirstPalette | src/Ray1DataExtractor/MainWindowViewModel.cs:200-206 | otherwise the colour is palette 0 at 255 − ImgData[y·16+x], an index always inside the palette |
| RasterProperties.AlphaOfPixel | src/Ray1DataExtractor/MainWindowViewModel.cs:198-210 | alpha is the mask value for a transparent texture even when hidden; 0 with no texture or a hidden opaque one; else the palette colour's alpha |
| RasterProperties.SameOffsetSameTile | src/Ray1DataExtractor/MainWindowViewModel.cs:190-200 | two non-zero tile indices that the offset table sends to the same offset draw identical pixels |
| RasterProperties.EmptyMapIsClear | src/Ray1DataExtractor/MainWindowViewModel.cs:186-210 | a map of tile 0 only, whose index-0 texture is not transparent, is all zero bytes |
| RasterProperties.TileZeroKeepsMaskAlpha | src/Ray1DataExtractor/MainWindowViewModel.cs:198-208 | a one-tile map of tile 0 with a transparent texture has black colour but keeps the mask's alpha 255 |
| LevelHashes.Recorded | src/Ray1DataExtractor/MainWindowViewModel.cs:233-236 | after recording hash h for game g: entry g is h, entries before g are kept, "" is added only below g, and entries from g on move right by one |
| LevelHashes.DuplicateNameShifts | src/Ray1DataExtractor/MainWindowViewModel.cs:233-236 | a level name met twice in one game puts the later hash at g and pushes the earlier one to g+1 |
| LevelHashes.FirstSightingAligns | src/Ray1DataExtractor/MainWindowViewModel.cs:233-236 | a list shorter than g becomes the list, "" for each missing game, then the hash |
| LevelHashes.HashTable.constructor | src/Ray1DataExtractor/MainWindowViewModel.cs:164-166 | the table starts empty, with no games and game index 0 |
| LevelHashes.HashTable.RecordHash | src/Ray1DataExtractor/MainWindowViewModel.cs:227-236 | only the named level's list changes, by the padding-then-insert rule; the game count invariant is kept |
| LevelHashes.HashTable.FinishGame | src/Ray1DataExtractor/MainWindowViewModel.cs:241-242 | the game's name is appended and the game index advances with it |
| LevelHashes.HashTable.RenderSheet | src/Ray1DataExtractor/MainWindowViewModel.cs:245-262 | for a key order that names every level once, the CSV is the header row of game names, then one row per level in that order, each cell followed by ',' and each row by a line break |
| LevelHashes.SheetRows | src/Ray1DataExtractor/MainWindowViewModel.cs:248-262 | the header is "Level" and the game names; every other row is a recorded level name followed by that level's own hashes |
| LevelHashes.AppendLevelRow | src/Ray1DataExtractor/MainWindowViewModel.cs:255-262 | one level's line is its name, its hashes, each followed by ',', and a line break |
| LevelHashes.SheetReadsBack | src/Ray1DataExtractor/MainWindowViewModel.cs:245-262 | reading the sheet back gives "Level" and the game names, then each level followed by its hashes |
| LevelHashes.SheetHasOneRowPerLevel | src/Ray1DataExtractor/MainWindowViewModel.cs:255-262 | the sheet read back has one line per recorded level plus the header, every level has its line, and no level name heads two lines |
| Sheets.AppendCells | src/Ray1DataExtractor/MainWindowViewModel.cs:246-251 | appending cells one by one adds each cell and its separator, in order |
| Sheets.TableRoundTrip | src/Ray1DataExtractor/MainWindowViewModel.cs:245-262 | splitting rendered rows on line feeds and separators gives the rows back when no cell holds either |
| Text.SplitJoin | src/Ray1ScriptsExtractor/Program.cs:121 | splitting a `String.Join` on its separator gives the items back when no item holds it |
| Text.Join | src/Ray1ScriptsExtractor/Program.cs:121 | joining no items gives "", one item gives the item, and the result starts with the first item |
| Text.RemoveChar | src/Ray1ScriptsExtractor/Program.cs:113-114 | the result has no occurrence of the character and the same count of every other character |
| Text.RemoveCharKeepsOrder | src/Ray1ScriptsExtractor/Program.cs:113-114 | the remaining characters keep their order, as an independent front-to-back filter |
| Text.RemoveCharIdempotent | src/Ray1ScriptsExtractor/Program.cs:113-114 | removing twice is removing once |
| Text.Trim | src/Ray1DataExtractor/MainWindowViewModel.cs:274 | the result is a contiguous part of the input, all that is cut off is the character, and the result neither starts nor ends with it |
| Text.TrimUntouched | src/Ray1DataExtractor/MainWindowViewModel.cs:274 | a value that neither starts nor ends with the character is unchanged |
| Text.TrimIdempotent | src/Ray1DataExtractor/MainWindowViewModel.cs:324 | trimming twice is trimming once |
| Text.DecimalString | src/Ray1ScriptsExtractor/Program.cs:116-117 | the rendering is one or more digits without a leading zero |
| Text.DecimalRoundTrip | src/Ray1ScriptsExtractor/Program.cs:116-117 | the rendered number reads back as the number |
| Text.TwoDigitString | src/Ray1ScriptsExtractor/Program.cs:63 | the `00` format gives at least two digits, without a superfluous leading zero |
| Text.TwoDigitRoundTrip | src/Ray1ScriptsExtractor/Program.cs:63 | the padded number reads back as the number and has exactly two digits below 100 |
| DataExtractor.DetectEngineVersion | src/Ray1DataExtractor/MainWindowViewModel.cs:70-78 | a SYSTEM.CNF always gives PS1; the kit or fan version is chosen only when its executable is present |
| DataExtractor.DetectPicksBestMarker | src/Ray1DataExtractor/MainWindowViewModel.cs:70-78 | the version is that of the highest-priority marker present (SYSTEM.CNF, then RAYKIT.EXE, then RAYFAN.EXE or RAYPLUS.EXE); PC_Edu exactly when none is present |
| DataExtractor.OtherFilesIgnored | src/Ray1DataExtractor/MainWindowViewModel.cs:70-78 | files other than the markers never change the version |
| DataExtractor.CommonArchivePath | src/Ray1DataExtractor/MainWindowViewModel.cs:100-104 | COMMON.DAT is looked up below the game's PCMAP folder |
| DataExtractor.SpecialArchivePath | src/Ray1DataExtractor/MainWindowViewModel.cs:109-111 | SPECIAL.DAT is looked up in the volume folder, game/PCMAP/volume |
| DataExtractor.CommonArchiveLocation | src/Ray1DataExtractor/MainWindowViewModel.cs:100-111 | on PS1, COMMON.DAT shares the volume folder of SPECIAL.DAT and differs per volume; elsewhere all volumes share one COMMON.DAT |
| DataExtractor.WriteValue | src/Ray1DataExtractor/MainWindowViewModel.cs:272-276 | the appended cell is a quote, a value with no leading or trailing '/', a quote and a comma, and what was already written is kept |
| DataExtractor.WriteValueKeepsPlainValue | src/Ray1DataExtractor/MainWindowViewModel.cs:272-276 | a value without leading or trailing '/' is written verbatim between quotes |
| DataExtractor.WriteValueTrimmed | src/Ray1DataExtractor/MainWindowViewModel.cs:322-326 | trimming a value first writes the same cell |
| DataExtractor.ByteRate | src/Ray1DataExtractor/MainWindowViewModel.cs:139 | the `uint` byte rate is below 2^29, and is the exact product over 8 whenever the product fits in 32 bits |
| DataExtractor.BlockAlign | src/Ray1DataExtractor/MainWindowViewModel.cs:140 | the `int` computation cast to `ushort` is the exact frame size in bytes whenever the frame has fewer than 2^19 bits |
| DataExtractor.DeriveFormat | src/Ray1DataExtractor/MainWindowViewModel.cs:139-140 | the derived byte rate and block alignment leave the given fields unchanged |
| DataExtractor.BlockAlignExact | src/Ray1DataExtractor/MainWindowViewModel.cs:140 | for a whole-byte frame below 65536 bits the `int` arithmetic and `ushort` cast give the exact frame size in bytes |
| DataExtractor.ByteRateExact | src/Ray1DataExtractor/MainWindowViewModel.cs:139 | without 32-bit overflow the byte rate is the sample rate times the frame size |
| DataExtractor.DeriveFormatConsistent | src/Ray1DataExtractor/MainWindowViewModel.cs:133-140 | without overflow and with whole-byte frames, BlockAlign·8 = BitsPerSample·ChannelCount and ByteRate = SampleRate·BlockAlign |
| DataExtractor.SoundSample | src/Ray1DataExtractor/MainWindowViewModel.cs:131-140 | an exported sample is PCM, mono, 8-bit at 11025 Hz with byte rate 11025 and block alignment 1, carrying the raw data unchanged |
| ScriptsExtractor.ScriptsEngineVersion | src/Ray1ScriptsExtractor/Program.cs:24-26 | this tool only ever detects PS1 or the educational PC release, and PS1 exactly when SYSTEM.CNF is present |
| ScriptsExtractor.EngineVersionsAgree | src/Ray1ScriptsExtractor/Program.cs:24-26 | the scripts extractor detects PS1 exactly when the data extractor does, and agrees with it on folders without kit or fan executables |
| ScriptsExtractor.CommonArchivePath | src/Ray1ScriptsExtractor/Program.cs:35-48 | COMMON.DAT is read below PCMAP |
| ScriptsExtractor.CommonArchivePathsAgree | src/Ray1ScriptsExtractor/Program.cs:35-48 | both tools read COMMON.DAT from the same place |
| ScriptsExtractor.OutputName | src/Ray1ScriptsExtractor/Program.cs:79-81 | the file name ends in the script name and ".json", and starts with "{version} - " exactly when a version is given |
| ScriptsExtractor.OutputNamesDistinct | src/Ray1ScriptsExtractor/Program.cs:79-81 | different scripts of one volume, or one script of different volumes, never share a file |
| ScriptsExtractor.WorldMapName | src/Ray1ScriptsExtractor/Program.cs:63 | the name is "WLDMAP" followed by at least two digits |
| ScriptsExtractor.WorldMapNameReadsBack | src/Ray1ScriptsExtractor/Program.cs:63 | the digits read back as the world-map number, and the name has 8 characters exactly for numbers below 100 |
| ScriptsExtractor.WorldMapSheetName | src/Ray1ScriptsExtractor/Program.cs:67 | the sheet file is "{version} - ", then the world-map script's own name, then ".csv" |
| ScriptsExtractor.NameCell | src/Ray1ScriptsExtractor/Program.cs:113-114 | the lookup raises exactly for an index outside the text table; otherwise the text without any '/' |
| ScriptsExtractor.LinkCell | src/Ray1ScriptsExtractor/Program.cs:121 | a link column raises exactly when the link list is missing or one of its entries has no variant |
| ScriptsExtractor.LinkCells | src/Ray1ScriptsExtractor/Program.cs:119-123 | a successful run of n link columns yields n cells |
| ScriptsExtractor.LinkCellsOutcome | src/Ray1ScriptsExtractor/Program.cs:119-123 | the columns raise exactly when one of them does, and otherwise hold each column's join in order |
| ScriptsExtractor.Row | src/Ray1ScriptsExtractor/Program.cs:113-128 | a successful entry has one cell per header column, and has no level variant set |
| ScriptsExtractor.ShownPositions | src/Ray1ScriptsExtractor/Program.cs:108-111 | the positions listed are increasing, all at non-zero x, and include every entry at non-zero x |
| ScriptsExtractor.ShownInOrder | src/Ray1ScriptsExtractor/Program.cs:108-111 | the entries that get a row are exactly the entries at non-zero x, in map order |
| ScriptsExtractor.SheetRows | src/Ray1ScriptsExtractor/Program.cs:108-130 | a sheet that does not raise has as many data rows as entries at non-zero x |
| ScriptsExtractor.WorldMapSheet | src/Ray1ScriptsExtractor/Program.cs:88-133 | the sheet raises exactly when its rows do, and otherwise starts with the header line |
| ScriptsExtractor.RowOutcome | src/Ray1ScriptsExtractor/Program.cs:113-126 | an entry raises exactly on a bad index or a set level variant, and index errors take precedence |
| ScriptsExtractor.RowCells | src/Ray1ScriptsExtractor/Program.cs:113-129 | a row has the header's 11 cells: names without '/', type, world and lives in decimal, the five space-joined link lists, and a demo cell that is empty exactly when there is no demo |
| ScriptsExtractor.RowsOfShownEntries | src/Ray1ScriptsExtractor/Program.cs:108-111 | the sheet succeeds exactly when every entry at a non-zero x position yields a row, and then holds one row per such entry, in order |
| ScriptsExtractor.FirstFailureWins | src/Ray1ScriptsExtractor/Program.cs:108-130 | a failing sheet raises the exception of its first failing shown entry |
| ScriptsExtractor.SheetReadsBack | src/Ray1ScriptsExtractor/Program.cs:94-106 | reading the sheet back gives the 11 header fields and then the rows |
| ScriptsExtractor.CreateWorldMapSheet | src/Ray1ScriptsExtractor/Program.cs:88-133 | the method returns the specified sheet or raises the specified exception |
| ScriptsExtractor.WriteRow | src/Ray1ScriptsExtractor/Program.cs:110-129 | one entry's line is its 11 tab-terminated cells and a line break, or the exception the entry raises |
| ScriptsExtractor.SheetRowsFailurePersists | src/Ray1ScriptsExtractor/Program.cs:108-130 | once an entry raises, the rest of the map does not change the outcome |

Some helpers model single source expressions and have no row of their own.
Their meaning is stated by the contracts of the rows above:

- `Raster.Hidden`, the hidden-tile test at MainWindowViewModel.cs:198, by
  `RasterProperties.HiddenTileHasNoColour` and `RasterProperties.AlphaOfPixel`;
- `ScriptsExtractor.VariantText`, `FirstVariants`, `DemoCell` and
  `HasLevelVariation` by `ScriptsExtractor.LinkCell`, `RowCells` and
  `RowOutcome`;
- `DataExtractor.ToUInt`, `ToInt32`, `DivTrunc` and `ToUShort`, the `uint`,
  `int` and `ushort` arithmetic of MainWindowViewModel.cs:139-140, by
  `DataExtractor.ByteRate` and `DataExtractor.BlockAlign`.

## Left out

- Binary decoding of archives, levels and scripts is done by the serializer library, which is not part of this model. Decoded values are inputs, and `Level.WellFormed` records the fixed sizes the decoder guarantees.
- Colour scaling from floating-point palette channels to bytes is floating point. Palette colours are modelled with byte channels.
- SHA-512 and Base64 are foreign cryptographic calls. A hash is an opaque string.
- The PNG writer, the WAV file writer and JSON serialization are foreign library writers. The model stops at the bytes, fields and names they receive.
- The rest is file-system, UI and asynchronous plumbing with no logic to model:
  - file dialogs;
  - directory and file enumeration, and in particular the list of volumes in `Program.cs` (lines 28-39);
  - file writes and `Process.Start`;
  - the `Task.Run` batching and `Log`;
  - the skip of a missing SPECIAL.DAT (`Program.cs` lines 55-56).
- LevelHashes.HashTable.RenderSheet: the level names come in an `order` given as a parameter, which must name every recorded level exactly once. The culture-sensitive ordering of `OrderBy` is not modelled.
- Raster.ComposeRaster: assumes the buffer size (Width·16)·(Height·16)·4 fits in a 32-bit `int`. The overflow for larger maps is not modelled.
- Line breaks are fixed to `"\r\n"`. On a platform whose `Environment.NewLine` is `"\n"`, the scripts extractor writes `"\n"`, which is not modelled. The readers here accept both forms.
- Paths are modelled as the component lists given to `Path.Combine`. The joining separator is not modelled. Marker files are matched by exact name, without the file system's case-insensitivity.
- ScriptsExtractor.CommonArchivePathsAgree: both tools are given the same volume string. The data extractor upper-cases the volume folder's name (MainWindowViewModel.cs:66) and the scripts extractor uses it as listed (Program.cs:31), so for a folder not named in upper case the two paths agree only on a case-insensitive file system. Case folding is not modelled.
- World-map values are modelled in simplified form:
  - level variants and the type enumeration are modelled by their text form;
  - world, lives and demo level are non-negative integers rendered in decimal.
- The world-map header's eleven `writeValue` calls are written as one loop over the header cells.
- Other output code is not modelled:
  - the output name of the data extractor's own `SerializeScript`;
  - the export name of a game;
  - the row contents of the level and versions sheets beyond their cell writer `writeValue`.
