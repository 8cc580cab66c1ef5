/**
 * The map compositor: a level is drawn into a flat RGBA byte buffer, tile
 * by tile and pixel by pixel, with each tile's texture resolved through the
 * offset table.
 */
module Raster {
  import opened Common
  import opened Level

  /** Width of the picture in pixels. */
  function PixelWidth(level: LevelFile): nat {
    level.width as int * 16
  }

  /** Height of the picture in pixels. */
  function PixelHeight(level: LevelFile): nat {
    level.height as int * 16
  }

  /** Four bytes (R, G, B, A) per pixel. */
  function RasterLength(level: LevelFile): nat {
    PixelWidth(level) * PixelHeight(level) * 4
  }

  /** One byte of the buffer as the drawing loops address it. */
  datatype Coord = Coord(tileX: nat, tileY: nat, x: nat, y: nat, channel: nat)

  predicate InRange(level: LevelFile, c: Coord) {
    c.tileX < level.width as int && c.tileY < level.height as int &&
    c.x < 16 && c.y < 16 && c.channel < 4
  }

  /** `rawImgDataIndex * 4 + channel`, with the pixel index computed as the loops do. */
  function ByteIndex(level: LevelFile, c: Coord): int {
    ((c.tileY * 16 + c.y) * PixelWidth(level) + (c.tileX * 16 + c.x)) * 4 + c.channel
  }

  /** The coordinates of a buffer byte, recovered by division. */
  function CoordOf(level: LevelFile, i: nat): Coord
    requires level.width > 0
  {
    CoordIn(PixelWidth(level), i)
  }

  /** The coordinates of byte `i` in a picture `w` pixels wide. */
  function CoordIn(w: int, i: nat): Coord
    requires w > 0
  {
    var pixel := i / 4;
    var absY := pixel / w;
    var absX := pixel % w;
    Coord(absX / 16, absY / 16, absX % 16, absY % 16, i % 4)
  }

  // ---------------------------------------------------------------------
  // Arithmetic helpers

  lemma DivModOf(q: nat, r: nat, d: nat)
    requires r < d
    ensures (q * d + r) / d == q && (q * d + r) % d == r
  {
    var n := q * d + r;
    var q', r' := n / d, n % d;
    assert n == q' * d + r';
    if q' < q {
      MulLe(q' + 1, q, d);
    } else if q < q' {
      MulLe(q + 1, q', d);
    }
  }

  lemma MulLe(a: nat, b: nat, d: nat)
    requires a <= b
    ensures a * d <= b * d
  {
  }

  /** Pixel (absX, absY) of a picture `w` wide and `h` high lies inside it. */
  lemma PixelBound(absX: nat, absY: nat, w: nat, h: nat)
    requires absX < w && absY < h
    ensures absY * w + absX < w * h
  {
    MulLe(absY, h - 1, w);
    assert (h - 1) * w == h * w - w;
  }

  // ---------------------------------------------------------------------
  // The layout is a bijection between in-range coordinates and buffer bytes

  /** Every in-range coordinate names a byte of the buffer, and division recovers it. */
  lemma CoordOfByteIndex(level: LevelFile, c: Coord)
    requires InRange(level, c)
    ensures 0 <= ByteIndex(level, c) < RasterLength(level)
    ensures CoordOf(level, ByteIndex(level, c)) == c
  {
    var w, h := PixelWidth(level), PixelHeight(level);
    var absX, absY := c.tileX * 16 + c.x, c.tileY * 16 + c.y;
    var pixel := absY * w + absX;
    PixelBound(absX, absY, w, h);
    DivModOf(pixel, c.channel, 4);
    DivModOf(absY, absX, w);
    DivModOf(c.tileX, c.x, 16);
    DivModOf(c.tileY, c.y, 16);
    assert w * h * 4 == RasterLength(level);
  }

  /** Every byte of the buffer is named by exactly one in-range coordinate. */
  lemma ByteIndexOfCoord(level: LevelFile, i: nat)
    requires i < RasterLength(level)
    ensures level.width > 0
    ensures InRange(level, CoordOf(level, i))
    ensures ByteIndex(level, CoordOf(level, i)) == i
  {
    var w, h := PixelWidth(level), PixelHeight(level);
    assert w > 0 && h > 0;
    var pixel := i / 4;
    assert pixel < w * h;
    var absY, absX := pixel / w, pixel % w;
    assert absY < h by {
      if absY >= h { MulLe(h, absY, w); }
    }
    assert absY / 16 < level.height as int;
    assert absX / 16 < level.width as int;
    var c := CoordOf(level, i);
    assert c.tileY * 16 + c.y == absY;
    assert c.tileX * 16 + c.x == absX;
    assert absY * w + absX == pixel;
  }

  /** Distinct coordinates never share a byte, so no byte is written twice. */
  lemma ByteIndexInjective(level: LevelFile, c1: Coord, c2: Coord)
    requires InRange(level, c1) && InRange(level, c2)
    requires ByteIndex(level, c1) == ByteIndex(level, c2)
    ensures c1 == c2
  {
    CoordOfByteIndex(level, c1);
    CoordOfByteIndex(level, c2);
  }

  // ---------------------------------------------------------------------
  // What each byte holds

  /** The block under tile (tileX, tileY). */
  function BlockAt(level: LevelFile, tileX: nat, tileY: nat): Block
    requires WellFormed(level)
    requires tileX < level.width as int && tileY < level.height as int
  {
    PixelBound(tileX, tileY, level.width as int, level.height as int);
    level.blocks[tileY * level.width as int + tileX]
  }

  /** The texture lookup of tile (tileX, tileY) does not raise. */
  predicate TileResolves(level: LevelFile, tileX: nat, tileY: nat)
    requires WellFormed(level)
    requires tileX < level.width as int && tileY < level.height as int
  {
    ResolveTexture(level, BlockAt(level, tileX, tileY).tileIndex).Success?
  }

  /** Every tile's texture lookup succeeds: the loops run to the end. */
  predicate AllTilesResolve(level: LevelFile)
    requires WellFormed(level)
  {
    forall tileX: nat, tileY: nat | tileX < level.width as int && tileY < level.height as int ::
      TileResolves(level, tileX, tileY)
  }

  lemma ResolvedWellFormed(level: LevelFile, tileIndex: ushort)
    requires WellFormed(level)
    ensures var r := ResolveTexture(level, tileIndex);
      r.Success? && r.value.Some? ==> TextureWellFormed(r.value.value)
  {
    var r := ResolveTexture(level, tileIndex);
    if r.Success? && r.value.Some? {
      ResolvedTextureBelongsToLevel(level, tileIndex);
    }
  }

  /** The texture is not drawn: none was found, the tile is empty, or it carries the sentinel. */
  predicate Hidden(tileIndex: ushort, tex: Option<BlockTexture>) {
    tex.None? || tileIndex == 0 || tex.value.transparencyMode == TransparentSentinel
  }

  /** The colour a pixel takes from the first palette, or transparent black when hidden. */
  function PixelColor(level: LevelFile, tileIndex: ushort, tex: Option<BlockTexture>, p: nat): (color: Color)
    requires WellFormed(level) && p < 256
    requires tex.Some? ==> TextureWellFormed(tex.value)
    ensures Hidden(tileIndex, tex) ==> color == Clear
    ensures !Hidden(tileIndex, tex) ==> color in level.palettes[0]
  {
    if Hidden(tileIndex, tex) then Clear
    else level.palettes[0][255 - tex.value.imgData[p] as int]
  }

  /** One channel of a pixel; the alpha of a transparent texture comes from its mask. */
  function PixelByte(level: LevelFile, tileIndex: ushort, tex: Option<BlockTexture>, p: nat, channel: nat): (b: byte)
    requires WellFormed(level) && p < 256 && channel < 4
    requires tex.Some? ==> TextureWellFormed(tex.value)
    ensures channel < 3 && Hidden(tileIndex, tex) ==> b == 0
    ensures channel == 3 && tex.Some? && tex.value.TransparentBlockTexture? ==> b == tex.value.alpha[p]
    ensures channel == 3 && Hidden(tileIndex, tex) && (tex.None? || tex.value.OpaqueBlockTexture?) ==> b == 0
  {
    var color := PixelColor(level, tileIndex, tex, p);
    if channel == 0 then color.red
    else if channel == 1 then color.green
    else if channel == 2 then color.blue
    else if tex.Some? && tex.value.TransparentBlockTexture? then tex.value.alpha[p]
    else color.alpha
  }

  /** The byte drawn at a coordinate (0 where the lookup fails, which aborts the drawing). */
  function TileByte(level: LevelFile, c: Coord): byte
    requires WellFormed(level) && InRange(level, c)
  {
    var block := BlockAt(level, c.tileX, c.tileY);
    var resolved := ResolveTexture(level, block.tileIndex);
    if resolved.Failure? then 0
    else
      ResolvedWellFormed(level, block.tileIndex);
      PixelByte(level, block.tileIndex, resolved.value, c.y * 16 + c.x, c.channel)
  }

  /** Unfolds `TileByte` once the tile's block and texture are known. */
  lemma TileByteOfResolved(level: LevelFile, c: Coord, tileIndex: ushort, tex: Option<BlockTexture>)
    requires WellFormed(level) && InRange(level, c)
    requires BlockAt(level, c.tileX, c.tileY).tileIndex == tileIndex
    requires ResolveTexture(level, tileIndex) == Success(tex)
    requires tex.Some? ==> TextureWellFormed(tex.value)
    ensures TileByte(level, c) == PixelByte(level, tileIndex, tex, c.y * 16 + c.x, c.channel)
  {
  }

  /** Byte `i` of the finished buffer. */
  function RasterByte(level: LevelFile, i: nat): byte
    requires WellFormed(level) && i < RasterLength(level)
  {
    ByteIndexOfCoord(level, i);
    TileByte(level, CoordOf(level, i))
  }

  // ---------------------------------------------------------------------
  // Progress of the drawing loops

  /** `c` is drawn before the pixel (x, y) of tile (tileX, tileY). */
  predicate Before(c: Coord, tileY: nat, tileX: nat, y: nat, x: nat) {
    c.tileY < tileY ||
    (c.tileY == tileY && (c.tileX < tileX ||
    (c.tileX == tileX && (c.y < y || (c.y == y && c.x < x)))))
  }

  /** Every byte drawn before that pixel already holds its final value. */
  ghost predicate Drawn(level: LevelFile, s: seq<byte>, tileY: nat, tileX: nat, y: nat, x: nat)
    requires WellFormed(level)
  {
    |s| == RasterLength(level) &&
    forall i | 0 <= i < |s| ::
      level.width > 0 && Before(CoordOf(level, i), tileY, tileX, y, x) ==> s[i] == RasterByte(level, i)
  }

  lemma DrawnWeaken(level: LevelFile, s: seq<byte>, tileY: nat, tileX: nat, y: nat, x: nat,
                    tileY': nat, tileX': nat, y': nat, x': nat)
    requires WellFormed(level) && Drawn(level, s, tileY, tileX, y, x)
    requires forall c | InRange(level, c) :: Before(c, tileY', tileX', y', x') ==> Before(c, tileY, tileX, y, x)
    ensures Drawn(level, s, tileY', tileX', y', x')
  {
    forall i | 0 <= i < |s| && level.width > 0 && Before(CoordOf(level, i), tileY', tileX', y', x')
      ensures s[i] == RasterByte(level, i)
    {
      ByteIndexOfCoord(level, i);
    }
  }

  lemma DrawnAll(level: LevelFile, s: seq<byte>)
    requires WellFormed(level) && Drawn(level, s, level.height as int, 0, 0, 0)
    ensures forall i | 0 <= i < |s| :: s[i] == RasterByte(level, i)
  {
    forall i | 0 <= i < |s| ensures s[i] == RasterByte(level, i) {
      ByteIndexOfCoord(level, i);
    }
  }

  /** Storing the four channels of one pixel extends the drawn region by that pixel. */
  lemma DrawPixel(level: LevelFile, s: seq<byte>, s': seq<byte>, tileY: nat, tileX: nat, y: nat, x: nat,
                  tileIndex: ushort, tex: Option<BlockTexture>)
    requires WellFormed(level) && InRange(level, Coord(tileX, tileY, x, y, 0))
    requires BlockAt(level, tileX, tileY).tileIndex == tileIndex
    requires ResolveTexture(level, tileIndex) == Success(tex)
    requires tex.Some? ==> TextureWellFormed(tex.value)
    requires Drawn(level, s, tileY, tileX, y, x)
    requires var base := ByteIndex(level, Coord(tileX, tileY, x, y, 0));
      var p := y * 16 + x;
      0 <= base && base + 4 <= |s| &&
      s' == s[base := PixelByte(level, tileIndex, tex, p, 0)][base + 1 := PixelByte(level, tileIndex, tex, p, 1)]
             [base + 2 := PixelByte(level, tileIndex, tex, p, 2)][base + 3 := PixelByte(level, tileIndex, tex, p, 3)]
    ensures Drawn(level, s', tileY, tileX, y, x + 1)
  {
    var base := ByteIndex(level, Coord(tileX, tileY, x, y, 0));
    forall i | 0 <= i < |s'| && level.width > 0 && Before(CoordOf(level, i), tileY, tileX, y, x + 1)
      ensures s'[i] == RasterByte(level, i)
    {
      ByteIndexOfCoord(level, i);
      var c := CoordOf(level, i);
      if Before(c, tileY, tileX, y, x) {
        if base <= i < base + 4 {
          CoordOfByteIndex(level, Coord(tileX, tileY, x, y, i - base));
          assert false;
        }
      } else {
        assert c == Coord(tileX, tileY, x, y, c.channel);
        assert i == base + c.channel;
        TileByteOfResolved(level, c, tileIndex, tex);
      }
    }
  }

  /** Byte `i` of the buffer belongs to tile (tileX, tileY). */
  ghost predicate InTile(level: LevelFile, i: int, tileX: nat, tileY: nat) {
    0 <= i && level.width > 0 && CoordOf(level, i).tileX == tileX && CoordOf(level, i).tileY == tileY
  }

  /** The four bytes of a pixel belong to its tile. */
  lemma PixelInTile(level: LevelFile, tileX: nat, tileY: nat, x: nat, y: nat)
    requires InRange(level, Coord(tileX, tileY, x, y, 0))
    ensures var b := ByteIndex(level, Coord(tileX, tileY, x, y, 0));
      InTile(level, b, tileX, tileY) && InTile(level, b + 1, tileX, tileY) &&
      InTile(level, b + 2, tileX, tileY) && InTile(level, b + 3, tileX, tileY)
  {
    CoordOfByteIndex(level, Coord(tileX, tileY, x, y, 0));
    CoordOfByteIndex(level, Coord(tileX, tileY, x, y, 1));
    CoordOfByteIndex(level, Coord(tileX, tileY, x, y, 2));
    CoordOfByteIndex(level, Coord(tileX, tileY, x, y, 3));
  }

  // ---------------------------------------------------------------------
  // The drawing loops

  /**
   * Draws the level into a new RGBA buffer. The lookup of a tile whose
   * index is past the end of the offset table raises, abandoning the level.
   */
  method ComposeRaster(level: LevelFile) returns (res: Result<array<byte>>)
    requires WellFormed(level)
    ensures res.Success? <==> AllTilesResolve(level)
    ensures res.Failure? ==> res.error == IndexOutOfRange
    ensures res.Success? ==> res.value.Length == (level.width as int * 16) * (level.height as int * 16) * 4
    ensures res.Success? ==> forall i | 0 <= i < res.value.Length :: res.value[i] == RasterByte(level, i)
  {
    var width := level.width as int * 16;
    var height := level.height as int * 16;
    var rawImgData := new byte[width * height * 4];

    for tileY := 0 to level.height as int
      invariant Drawn(level, rawImgData[..], tileY, 0, 0, 0)
      invariant forall tx: nat, ty: nat | tx < level.width as int && ty < tileY :: TileResolves(level, tx, ty)
    {
      for tileX := 0 to level.width as int
        invariant Drawn(level, rawImgData[..], tileY, tileX, 0, 0)
        invariant forall tx: nat, ty: nat | (ty < tileY && tx < level.width as int) || (ty == tileY && tx < tileX) ::
          TileResolves(level, tx, ty)
      {
        var block := BlockAt(level, tileX, tileY);
        var resolved := ResolveTexture(level, block.tileIndex);
        if resolved.Failure? {
          assert !TileResolves(level, tileX, tileY);
          return Failure(resolved.error);
        }
        ResolvedWellFormed(level, block.tileIndex);
        DrawTile(level, rawImgData, width, tileX, tileY, block, resolved.value);
      }
      DrawnWeaken(level, rawImgData[..], tileY, level.width as int, 0, 0, tileY + 1, 0, 0, 0);
    }
    DrawnAll(level, rawImgData[..]);
    return Success(rawImgData);
  }

  /** The two pixel loops of one tile, drawing it with the texture already resolved for it. */
  method DrawTile(level: LevelFile, rawImgData: array<byte>, width: int, tileX: nat, tileY: nat,
                  block: Block, blockTexture: Option<BlockTexture>)
    requires WellFormed(level) && width == PixelWidth(level)
    requires tileX < level.width as int && tileY < level.height as int
    requires block == BlockAt(level, tileX, tileY)
    requires ResolveTexture(level, block.tileIndex) == Success(blockTexture)
    requires blockTexture.Some? ==> TextureWellFormed(blockTexture.value)
    requires Drawn(level, rawImgData[..], tileY, tileX, 0, 0)
    modifies rawImgData
    ensures Drawn(level, rawImgData[..], tileY, tileX + 1, 0, 0)
    ensures forall i | 0 <= i < rawImgData.Length && !InTile(level, i, tileX, tileY) ::
      rawImgData[i] == old(rawImgData[i])
  {
    for y := 0 to 16
      invariant Drawn(level, rawImgData[..], tileY, tileX, y, 0)
      invariant forall i | 0 <= i < rawImgData.Length && !InTile(level, i, tileX, tileY) ::
        rawImgData[i] == old(rawImgData[i])
    {
      for x := 0 to 16
        invariant Drawn(level, rawImgData[..], tileY, tileX, y, x)
        invariant forall i | 0 <= i < rawImgData.Length && !InTile(level, i, tileX, tileY) ::
          rawImgData[i] == old(rawImgData[i])
      {
        PixelInTile(level, tileX, tileY, x, y);
        DrawPixelAt(level, rawImgData, width, tileX, tileY, x, y, block, blockTexture);
      }
      DrawnWeaken(level, rawImgData[..], tileY, tileX, y, 16, tileY, tileX, y + 1, 0);
    }
    DrawnWeaken(level, rawImgData[..], tileY, tileX, 16, 0, tileY, tileX + 1, 0, 0);
  }

  /** The body of the pixel loops: pick the colour and store the four channels. */
  method DrawPixelAt(level: LevelFile, rawImgData: array<byte>, width: int, tileX: nat, tileY: nat,
                     x: nat, y: nat, block: Block, blockTexture: Option<BlockTexture>)
    requires WellFormed(level) && width == PixelWidth(level)
    requires InRange(level, Coord(tileX, tileY, x, y, 0))
    requires block == BlockAt(level, tileX, tileY)
    requires ResolveTexture(level, block.tileIndex) == Success(blockTexture)
    requires blockTexture.Some? ==> TextureWellFormed(blockTexture.value)
    requires Drawn(level, rawImgData[..], tileY, tileX, y, x)
    modifies rawImgData
    ensures Drawn(level, rawImgData[..], tileY, tileX, y, x + 1)
    ensures var b := ByteIndex(level, Coord(tileX, tileY, x, y, 0));
      var p := y * 16 + x;
      0 <= b && b + 4 <= rawImgData.Length &&
      rawImgData[..] == old(rawImgData[..])[b := PixelByte(level, block.tileIndex, blockTexture, p, 0)]
        [b + 1 := PixelByte(level, block.tileIndex, blockTexture, p, 1)]
        [b + 2 := PixelByte(level, block.tileIndex, blockTexture, p, 2)]
        [b + 3 := PixelByte(level, block.tileIndex, blockTexture, p, 3)]
  {
    var color := if Hidden(block.tileIndex, blockTexture) then Clear
      else level.palettes[0][255 - blockTexture.value.imgData[y * 16 + x] as int];
    var rawImgDataIndex := (tileY * 16 + y) * width + (tileX * 16 + x);
    ghost var base := rawImgDataIndex * 4;
    assert base == ByteIndex(level, Coord(tileX, tileY, x, y, 0)) && 0 <= base && base + 4 <= rawImgData.Length by {
      CoordOfByteIndex(level, Coord(tileX, tileY, x, y, 3));
    }
    assert color == PixelColor(level, block.tileIndex, blockTexture, y * 16 + x);
    var alpha := if blockTexture.Some? && blockTexture.value.TransparentBlockTexture?
      then blockTexture.value.alpha[y * 16 + x]
      else color.alpha;
    ghost var before := rawImgData[..];
    StorePixel(rawImgData, rawImgDataIndex * 4, color.red, color.green, color.blue, alpha);
    DrawPixel(level, before, rawImgData[..], tileY, tileX, y, x, block.tileIndex, blockTexture);
  }

  /** Stores the R, G, B and A bytes of one pixel at `rawImgData[k..k + 4]`. */
  method StorePixel(rawImgData: array<byte>, k: int, red: byte, green: byte, blue: byte, alpha: byte)
    requires 0 <= k && k + 4 <= rawImgData.Length
    modifies rawImgData
    ensures rawImgData[..] == old(rawImgData[..])[k := red][k + 1 := green][k + 2 := blue][k + 3 := alpha]
  {
    rawImgData[k + 0] := red;
    rawImgData[k + 1] := green;
    rawImgData[k + 2] := blue;
    rawImgData[k + 3] := alpha;
  }
}

/** What the finished picture shows, stated per pixel and per tile. */
module RasterProperties {
  import opened Common
  import opened Level
  import opened Raster

  /** The byte of pixel (x, y) of tile (tileX, tileY), channel `channel`, sits at `ByteIndex` of the buffer. */
  lemma RasterByteAt(level: LevelFile, c: Coord)
    requires WellFormed(level) && InRange(level, c)
    ensures 0 <= ByteIndex(level, c) < RasterLength(level)
    ensures RasterByte(level, ByteIndex(level, c)) == TileByte(level, c)
  {
    CoordOfByteIndex(level, c);
  }

  /** The texture lookup result for the tile containing `c`. */
  function TileTexture(level: LevelFile, c: Coord): (tex: Option<BlockTexture>)
    requires WellFormed(level) && InRange(level, c) && TileResolves(level, c.tileX, c.tileY)
    ensures tex.Some? ==> TextureWellFormed(tex.value) && tex.value in BlockTextures(level)
  {
    var tileIndex := BlockAt(level, c.tileX, c.tileY).tileIndex;
    ResolvedWellFormed(level, tileIndex);
    var tex := ResolveTexture(level, tileIndex).value;
    if tex.Some? then ResolvedTextureBelongsToLevel(level, tileIndex); tex else tex
  }

  /**
   * No texture found, tile index 0, or the 0xAAAAAAAA transparency mode:
   * the red, green and blue bytes of every pixel of the tile are 0.
   */
  lemma HiddenTileHasNoColour(level: LevelFile, c: Coord)
    requires WellFormed(level) && InRange(level, c) && TileResolves(level, c.tileX, c.tileY)
    requires Hidden(BlockAt(level, c.tileX, c.tileY).tileIndex, TileTexture(level, c))
    requires c.channel < 3
    ensures TileByte(level, c) == 0
  {
    TileByteOfResolved(level, c, BlockAt(level, c.tileX, c.tileY).tileIndex, TileTexture(level, c));
  }

  /**
   * Otherwise the colour bytes come from the first palette at the inverted
   * index 255 - ImgData[y * 16 + x], which always lies within the palette.
   */
  lemma VisiblePixelUsesFirstPalette(level: LevelFile, c: Coord)
    requires WellFormed(level) && InRange(level, c) && TileResolves(level, c.tileX, c.tileY)
    requires !Hidden(BlockAt(level, c.tileX, c.tileY).tileIndex, TileTexture(level, c))
    requires c.channel < 3
    ensures var tex := TileTexture(level, c).value;
      0 <= 255 - tex.imgData[c.y * 16 + c.x] as int < |level.palettes[0]| &&
      var color := level.palettes[0][255 - tex.imgData[c.y * 16 + c.x] as int];
      TileByte(level, c) == [color.red, color.green, color.blue][c.channel]
  {
    TileByteOfResolved(level, c, BlockAt(level, c.tileX, c.tileY).tileIndex, TileTexture(level, c));
  }

  /**
   * The alpha byte: a transparent texture's mask value, even where the
   * colour was forced to 0; otherwise the alpha of the chosen colour, which
   * is 0 when the tile is hidden.
   */
  lemma AlphaOfPixel(level: LevelFile, c: Coord)
    requires WellFormed(level) && InRange(level, c) && TileResolves(level, c.tileX, c.tileY)
    requires c.channel == 3
    ensures var tex := TileTexture(level, c);
      var tileIndex := BlockAt(level, c.tileX, c.tileY).tileIndex;
      var a := TileByte(level, c);
      (tex.Some? && tex.value.TransparentBlockTexture? ==> a == tex.value.alpha[c.y * 16 + c.x]) &&
      (tex.None? ==> a == 0) &&
      (tex.Some? && tex.value.OpaqueBlockTexture? && Hidden(tileIndex, tex) ==> a == 0) &&
      (tex.Some? && tex.value.OpaqueBlockTexture? && !Hidden(tileIndex, tex) ==>
         a == level.palettes[0][255 - tex.value.imgData[c.y * 16 + c.x] as int].alpha)
  {
    TileByteOfResolved(level, c, BlockAt(level, c.tileX, c.tileY).tileIndex, TileTexture(level, c));
  }

  /**
   * Two tiles whose indices lead through the offset table to the same
   * offset are drawn identically, provided both indices are non-zero.
   */
  lemma SameOffsetSameTile(level: LevelFile, c1: Coord, c2: Coord)
    requires WellFormed(level) && InRange(level, c1) && InRange(level, c2)
    requires c1.x == c2.x && c1.y == c2.y && c1.channel == c2.channel
    requires var t1, t2 := BlockAt(level, c1.tileX, c1.tileY).tileIndex, BlockAt(level, c2.tileX, c2.tileY).tileIndex;
      t1 != 0 && t2 != 0 &&
      t1 as int < |level.offsetTable| && t2 as int < |level.offsetTable| &&
      level.offsetTable[t1] == level.offsetTable[t2]
    ensures TileByte(level, c1) == TileByte(level, c2)
  {
  }

  /**
   * A map made only of tile 0 is entirely zero bytes, as long as the
   * texture the offset table gives for index 0 is not a transparent one.
   */
  lemma EmptyMapIsClear(level: LevelFile, i: nat)
    requires WellFormed(level) && i < RasterLength(level)
    requires forall b | 0 <= b < |level.blocks| :: level.blocks[b].tileIndex == 0
    requires var r := ResolveTexture(level, 0);
      r.Success? && (r.value.None? || r.value.value.OpaqueBlockTexture?)
    ensures RasterByte(level, i) == 0
  {
    ByteIndexOfCoord(level, i);
    var c := CoordOf(level, i);
    BlockIsZero(level, c.tileX, c.tileY);
    ClearTile(level, c);
  }

  /** In a map of tile 0 only, every block looked up is tile 0. */
  lemma BlockIsZero(level: LevelFile, tileX: nat, tileY: nat)
    requires WellFormed(level) && tileX < level.width as int && tileY < level.height as int
    requires forall b | 0 <= b < |level.blocks| :: level.blocks[b].tileIndex == 0
    ensures BlockAt(level, tileX, tileY).tileIndex == 0
  {
    PixelBound(tileX, tileY, level.width as int, level.height as int);
  }

  /** Every byte of a tile 0 whose texture is absent or opaque is 0. */
  lemma ClearTile(level: LevelFile, c: Coord)
    requires WellFormed(level) && InRange(level, c)
    requires BlockAt(level, c.tileX, c.tileY).tileIndex == 0
    requires var r := ResolveTexture(level, 0);
      r.Success? && (r.value.None? || r.value.value.OpaqueBlockTexture?)
    ensures TileByte(level, c) == 0
  {
    ResolvedWellFormed(level, 0);
    TileByteOfResolved(level, c, 0, ResolveTexture(level, 0).value);
  }

  /**
   * The mask alpha survives on tile 0: a one-tile map whose offset table
   * sends index 0 to a transparent texture with an opaque mask keeps that
   * alpha although its colour is forced to black.
   */
  lemma TileZeroKeepsMaskAlpha()
    ensures var tex := TransparentBlockTexture(8, 0, seq(256, _ => 1), seq(256, _ => 255));
      var level := LevelFile(1, 1, [Block(0)], [], [tex], [8], [seq(256, _ => Color(9, 9, 9, 9))]);
      WellFormed(level) && RasterLength(level) == 1024 &&
      RasterByte(level, 0) == 0 && RasterByte(level, 3) == 255
  {
    var tex := TransparentBlockTexture(8, 0, seq(256, _ => 1), seq(256, _ => 255));
    var level := LevelFile(1, 1, [Block(0)], [], [tex], [8], [seq(256, _ => Color(9, 9, 9, 9))]);
    assert TileResolves(level, 0, 0);
    RasterByteAt(level, Coord(0, 0, 0, 0, 0));
    RasterByteAt(level, Coord(0, 0, 0, 0, 3));
    AlphaOfPixel(level, Coord(0, 0, 0, 0, 3));
    HiddenTileHasNoColour(level, Coord(0, 0, 0, 0, 0));
  }
}
