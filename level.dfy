/**
 * A decoded level file: the map grid, the two block-texture tables, the
 * offset table that links tile indices to textures, and the palettes.
 * The binary decoding itself belongs to the serializer library and is not
 * modelled; a `LevelFile` value is what it hands back.
 */
module Level {
  import opened Common

  /** Tiles are square, 16 by 16 pixels. */
  const TileSize: nat := 16

  /** Pixels per tile. */
  const TilePixels: nat := 256

  /** A texture whose transparency mode carries this tag is drawn fully transparent. */
  const TransparentSentinel: uint := 0xAAAA_AAAA

  /** The address key of a texture record; compared for equality only. */
  type Offset = int

  /** One palette entry, each channel already scaled to 0..255. */
  datatype Color = Color(red: byte, green: byte, blue: byte, alpha: byte)

  const Clear: Color := Color(0, 0, 0, 0)

  /**
   * A 16x16 texture of palette indices. The transparent variant adds one
   * alpha byte per pixel.
   */
  datatype BlockTexture =
    | OpaqueBlockTexture(offset: Offset, transparencyMode: uint, imgData: seq<byte>)
    | TransparentBlockTexture(offset: Offset, transparencyMode: uint, imgData: seq<byte>, alpha: seq<byte>)

  /** A map cell; only its tile index takes part in rendering. */
  datatype Block = Block(tileIndex: ushort)

  datatype LevelFile = LevelFile(
    width: ushort,                            // in tiles
    height: ushort,                           // in tiles
    blocks: seq<Block>,                       // row-major
    opaqueTextures: seq<BlockTexture>,
    transparentTextures: seq<BlockTexture>,
    offsetTable: seq<Offset>,                 // tile index -> texture offset
    palettes: seq<seq<Color>>)

  /** The layout the decoder guarantees for a single texture. */
  predicate TextureWellFormed(t: BlockTexture) {
    |t.imgData| == TilePixels &&
    (t.TransparentBlockTexture? ==> |t.alpha| == TilePixels)
  }

  /**
   * The fixed-size fields of the level format: one block per map cell,
   * 256 pixels per texture, each texture table holding its own kind, and a
   * first palette of 256 colours.
   */
  predicate WellFormed(level: LevelFile) {
    |level.blocks| == level.width as int * level.height as int &&
    (forall t | t in level.opaqueTextures :: TextureWellFormed(t) && t.OpaqueBlockTexture?) &&
    (forall t | t in level.transparentTextures :: TextureWellFormed(t) && t.TransparentBlockTexture?) &&
    |level.palettes| > 0 && |level.palettes[0]| == 256
  }

  /** The list the texture lookup scans: opaque textures, then transparent ones. */
  function BlockTextures(level: LevelFile): (ts: seq<BlockTexture>)
    ensures |ts| == |level.opaqueTextures| + |level.transparentTextures|
    ensures forall i | 0 <= i < |ts| ::
      ts[i] == if i < |level.opaqueTextures| then level.opaqueTextures[i]
               else level.transparentTextures[i - |level.opaqueTextures|]
  {
    level.opaqueTextures + level.transparentTextures
  }

  lemma BlockTexturesWellFormed(level: LevelFile)
    requires WellFormed(level)
    ensures forall t | t in BlockTextures(level) :: TextureWellFormed(t)
  {
  }

  /** `ts[j]` is the first texture in `ts` whose offset is `key`. */
  ghost predicate IsFirstMatch(ts: seq<BlockTexture>, key: Offset, j: int) {
    0 <= j < |ts| && ts[j].offset == key &&
    forall k | 0 <= k < j :: ts[k].offset != key
  }

  /** `FirstOrDefault(x => x.Offset == key)`: the earliest texture with that offset, if any. */
  function FirstWithOffset(ts: seq<BlockTexture>, key: Offset): (r: Option<BlockTexture>)
    ensures r.None? <==> forall j | 0 <= j < |ts| :: ts[j].offset != key
    ensures r.Some? ==> exists j :: IsFirstMatch(ts, key, j) && ts[j] == r.value
  {
    if |ts| == 0 then None
    else if ts[0].offset == key then
      assert IsFirstMatch(ts, key, 0);
      Some(ts[0])
    else
      var r := FirstWithOffset(ts[1..], key);
      assert r.Some? ==> exists j :: IsFirstMatch(ts, key, j) && ts[j] == r.value by {
        if r.Some? {
          var j :| IsFirstMatch(ts[1..], key, j) && ts[1..][j] == r.value;
          assert IsFirstMatch(ts, key, j + 1);
        }
      }
      r
  }

  /**
   * The texture a tile index resolves to. The key is read from the offset
   * table inside the search predicate, so an index past the table's end
   * raises only when there is at least one texture to test it against.
   */
  function ResolveTexture(level: LevelFile, tileIndex: ushort): (r: Result<Option<BlockTexture>>)
    ensures r.Failure? <==> |BlockTextures(level)| > 0 && tileIndex as int >= |level.offsetTable|
    ensures r.Success? && |BlockTextures(level)| > 0 ==>
      r.value == FirstWithOffset(BlockTextures(level), level.offsetTable[tileIndex])
    ensures r.Success? && |BlockTextures(level)| == 0 ==> r.value == None
  {
    var ts := BlockTextures(level);
    if |ts| == 0 then Success(None)
    else if tileIndex as int >= |level.offsetTable| then Failure(IndexOutOfRange)
    else Success(FirstWithOffset(ts, level.offsetTable[tileIndex]))
  }

  /** The texture found for a tile lies in one of the level's two tables. */
  lemma ResolvedTextureBelongsToLevel(level: LevelFile, tileIndex: ushort)
    requires ResolveTexture(level, tileIndex).Success?
    requires ResolveTexture(level, tileIndex).value.Some?
    ensures ResolveTexture(level, tileIndex).value.value in BlockTextures(level)
  {
  }

  /**
   * Tie-breaking: the first texture carrying the key is the one used, so a
   * later duplicate offset never wins over an earlier one.
   */
  lemma EarlierDuplicateWins(ts: seq<BlockTexture>, key: Offset, i: nat)
    requires IsFirstMatch(ts, key, i)
    ensures FirstWithOffset(ts, key) == Some(ts[i])
  {
    var r := FirstWithOffset(ts, key);
    assert r.Some?;
    var m :| IsFirstMatch(ts, key, m) && ts[m] == r.value;
  }

  /** Any opaque texture with the key shadows every transparent one. */
  lemma OpaqueShadowsTransparent(level: LevelFile, tileIndex: ushort)
    requires tileIndex as int < |level.offsetTable|
    requires exists i | 0 <= i < |level.opaqueTextures| ::
      level.opaqueTextures[i].offset == level.offsetTable[tileIndex]
    ensures ResolveTexture(level, tileIndex).Success?
    ensures ResolveTexture(level, tileIndex).value.Some?
    ensures ResolveTexture(level, tileIndex).value.value in level.opaqueTextures
  {
    var ts := BlockTextures(level);
    var key := level.offsetTable[tileIndex];
    var i :| 0 <= i < |level.opaqueTextures| && level.opaqueTextures[i].offset == key;
    assert ts[i].offset == key;
    var r := FirstWithOffset(ts, key);
    var m :| IsFirstMatch(ts, key, m) && ts[m] == r.value;
    assert m <= i;
  }

  /**
   * The precomputed-lookup formulation of the same resolution: insert the
   * opaque textures and then the transparent ones into a map from offset
   * to texture, never overwriting a key that is already present.
   */
  function FirstMatchTable(ts: seq<BlockTexture>): map<Offset, BlockTexture>
  {
    if |ts| == 0 then map[]
    else
      var rest := FirstMatchTable(ts[..|ts| - 1]);
      var last := ts[|ts| - 1];
      if last.offset in rest then rest else rest[last.offset := last]
  }

  /** Looking up the precomputed table agrees with the linear first-match scan. */
  lemma {:induction false} FirstMatchTableAgrees(ts: seq<BlockTexture>, key: Offset)
    ensures key in FirstMatchTable(ts) <==> FirstWithOffset(ts, key).Some?
    ensures key in FirstMatchTable(ts) ==> FirstMatchTable(ts)[key] == FirstWithOffset(ts, key).value
  {
    if |ts| > 0 {
      var init, last := ts[..|ts| - 1], ts[|ts| - 1];
      assert init + [last] == ts;
      FirstMatchTableAgrees(init, key);
      FirstWithOffsetSnoc(init, last, key);
      var rest := FirstMatchTable(init);
      assert FirstMatchTable(ts) == if last.offset in rest then rest else rest[last.offset := last];
    }
  }

  /** Appending a texture changes the first match only when there was none. */
  lemma {:induction false} FirstWithOffsetSnoc(ts: seq<BlockTexture>, t: BlockTexture, key: Offset)
    ensures FirstWithOffset(ts + [t], key) ==
      if FirstWithOffset(ts, key).Some? then FirstWithOffset(ts, key)
      else if t.offset == key then Some(t) else None
  {
    if |ts| > 0 {
      assert (ts + [t])[1..] == ts[1..] + [t];
      FirstWithOffsetSnoc(ts[1..], t, key);
    }
  }
}
