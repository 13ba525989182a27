/**
 * The map HUD widget: a 128 x 128 texture that shows the world map around the
 * player.  Two flags drive it: `visible` (toggled by the user) and `dirty`
 * (set by `MarkDirty`).  `UpdateTexture` refreshes the
 * texture only when the HUD is visible, no screen is open and the texture is
 * dirty; a refresh samples the window whose corner is the player's block
 * position minus 64 on X and Z, one world column per texture pixel.
 *
 * The host game's parts become inputs: the player's block position and whether
 * a screen is open are parameters, and the game's colour table
 * (`MapColor.COLORS[family].getRenderColor(shade)`) is the function `palette`.
 */
module LambdaMap {
  import opened JavaInt
  import opened WorldMaps

  /** The game's colour for a colour family and a shade, as a packed pixel. */
  type Palette = (int, int) -> Int32

  /** Minecraft's `BlockPos`. */
  datatype BlockPos = BlockPos(x: Int32, y: Int32, z: Int32)
  {
    /** `BlockPos.add`: component-wise Java `int` addition. */
    function Add(dx: Int32, dy: Int32, dz: Int32): BlockPos
    {
      BlockPos(JavaInt.Add(x, dx), JavaInt.Add(y, dy), JavaInt.Add(z, dz))
    }
  }

  // ---------------------------------------------------------------------
  // One refreshed pixel, step by step as the refresh computes it.

  /** The world position of the window's corner pixel (0, 0). */
  function Corner(player: BlockPos): BlockPos
  {
    player.Add(-64, 0, -64)
  }

  /** The world X coordinate that texture column `x` shows. */
  function WorldX(player: BlockPos, x: int): Int32
    requires 0 <= x < 128
  {
    JavaInt.Add(Corner(player).x, x)
  }

  /** The world Z coordinate that texture row `z` shows. */
  function WorldZ(player: BlockPos, z: int): Int32
    requires 0 <= z < 128
  {
    JavaInt.Add(Corner(player).z, z)
  }

  /** `a >> 7`: the chunk coordinate of world coordinate `a`. */
  function ChunkCoord(a: Int32): (c: Int32)
    ensures c == a / CHUNK_SIZE
  {
    Pow2Values();
    ShiftRightIsFloorDiv(a, 7);
    ShiftRight(a, 7)
  }

  /** `a & 127`: the offset of world coordinate `a` inside its chunk. */
  function InnerCoord(a: Int32): (i: Int32)
    ensures i == a % CHUNK_SIZE
    ensures 0 <= i < CHUNK_SIZE
  {
    Pow2Values();
    AndLowMask(a, 7);
    And(a, 127)
  }

  /** `innerX + innerZ * 128`: where an in-chunk offset lives in the raster. */
  function RasterIndex(innerX: Int32, innerZ: Int32): (pos: int)
    requires 0 <= innerX < CHUNK_SIZE && 0 <= innerZ < CHUNK_SIZE
    ensures 0 <= pos < RASTER_SIZE
    ensures pos % CHUNK_SIZE == innerX && pos / CHUNK_SIZE == innerZ
  {
    DivModUnique(innerX + innerZ * 128, 128, innerZ, innerX);
    innerX + innerZ * 128
  }

  /** `b & 255`: a raster byte read as an unsigned colour index. */
  function ColorIndex(b: Int8): (color: Int32)
    ensures 0 <= color < 256
    ensures color == b % 256
    ensures color == if b < 0 then b + 256 else b
  {
    Pow2Values();
    AndLowMask(b, 8);
    DivModUnique(b, 256, if b < 0 then -1 else 0, if b < 0 then b + 256 else b);
    And(b, 255)
  }

  /**
   * The pixel for a colour index: indices 0-3 (family 0) are transparent; any
   * other index is the palette colour for family index / 4 in 1..63 and shade
   * index mod 4 in 0..3.
   */
  function PixelColor(color: Int32, palette: Palette): (pixel: Int32)
    requires 0 <= color < 256
    ensures color < 4 ==> pixel == 0
    ensures 4 <= color ==> 1 <= color / 4 < 64 && 0 <= color % 4 < 4
                           && pixel == palette(color / 4, color % 4)
  {
    Pow2Values();
    AndLowMask(color, 2);
    if Div(color, 4) == 0 then 0 else palette(Div(color, 4), And(color, 3))
  }

  /** The pixel a refresh writes for world column (absoluteX, absoluteZ). */
  function ColumnPixel(world: WorldMap, palette: Palette, absoluteX: Int32, absoluteZ: Int32): Int32
  {
    match GetChunk(world, ChunkCoord(absoluteX), ChunkCoord(absoluteZ))
    case None => 0
    case Some(chunk) =>
      var pos := RasterIndex(InnerCoord(absoluteX), InnerCoord(absoluteZ));
      PixelColor(ColorIndex(chunk.colors[pos]), palette)
  }

  /** What a refresh writes at texture pixel (x, z). */
  function SamplePixel(world: WorldMap, player: BlockPos, palette: Palette, x: int, z: int): Int32
    requires 0 <= x < 128 && 0 <= z < 128
  {
    ColumnPixel(world, palette, WorldX(player, x), WorldZ(player, z))
  }

  /** Whether `UpdateTexture` refreshes, given the flags on entry and whether a screen is open. */
  predicate Refreshes(visible: bool, dirty: bool, screenOpen: bool)
  {
    visible && !screenOpen && dirty
  }

  // ---------------------------------------------------------------------
  // The same pixel, stated with mathematical integers.

  /** Player positions for which no coordinate of the window overflows a Java `int`. */
  predicate InRange(player: BlockPos)
  {
    MIN_INT + 64 <= player.x <= MAX_INT - 63 && MIN_INT + 64 <= player.z <= MAX_INT - 63
  }

  /**
   * Reference definition of a window pixel: world column (px - 64 + x, pz - 64 + z)
   * lies in chunk (floor(X / 128), floor(Z / 128)) at offset (X mod 128, Z mod 128);
   * its byte, read unsigned, is split into family (index / 4) and shade (index mod 4).
   */
  function ReferencePixel(world: WorldMap, player: BlockPos, palette: Palette, x: int, z: int): int
    requires InRange(player) && 0 <= x < 128 && 0 <= z < 128
  {
    ReferenceColumn(world, palette, player.x - 64 + x, player.z - 64 + z)
  }

  /** Reference colour of world column (ax, az). */
  function ReferenceColumn(world: WorldMap, palette: Palette, ax: int, az: int): int
  {
    if (ax / 128, az / 128) !in world then 0
    else ReferenceColor(world[(ax / 128, az / 128)].colors[ax % 128 + 128 * (az % 128)], palette)
  }

  /** Reference colour of a raster byte: its unsigned value split into family and shade. */
  function ReferenceColor(b: Int8, palette: Palette): int
  {
    var index := (b as int) % 256;
    if index < 4 then 0 else palette(index / 4, index % 4)
  }

  // ---------------------------------------------------------------------
  // Properties of the refresh.

  /** A world coordinate is its chunk's origin plus its in-chunk offset, also when negative. */
  lemma ChunkDecomposition(a: Int32)
    ensures ChunkCoord(a) * CHUNK_SIZE + InnerCoord(a) == a
    ensures 0 <= InnerCoord(a) < CHUNK_SIZE
  {
  }

  /** ...and that split is the only one with an offset in [0, 128). */
  lemma ChunkDecompositionUnique(a: Int32, chunk: int, inner: int)
    requires 0 <= inner < CHUNK_SIZE && chunk * CHUNK_SIZE + inner == a
    ensures chunk == ChunkCoord(a) && inner == InnerCoord(a)
  {
    DivModUnique(a, CHUNK_SIZE, chunk, inner);
  }

  /** Texture pixel (x, z) shows world column (px - 64 + x, pz - 64 + z). */
  lemma WindowIsCentred(player: BlockPos, x: int, z: int)
    requires InRange(player) && 0 <= x < 128 && 0 <= z < 128
    ensures WorldX(player, x) == player.x - 64 + x
    ensures WorldZ(player, z) == player.z - 64 + z
  {
  }

  /** Texture pixel (64, 64) shows the player's own column, wherever the player stands. */
  lemma PlayerAtCentre(player: BlockPos)
    ensures WorldX(player, 64) == player.x && WorldZ(player, 64) == player.z
  {
    WindowWraps(player, 64, 64);
  }

  /** Without any range assumption, column x and row z show the exact sums, wrapped as Java `int`s. */
  lemma WindowWraps(player: BlockPos, x: int, z: int)
    requires 0 <= x < 128 && 0 <= z < 128
    ensures WorldX(player, x) == Wrap(player.x - 64 + x)
    ensures WorldZ(player, z) == Wrap(player.z - 64 + z)
  {
    AddAdd(player.x, -64, x);
    AddAdd(player.z, -64, z);
  }

  /**
   * The window meets at most two chunk columns and two chunk rows: the chunk of
   * the corner and the next one (so at most four chunks in all).
   */
  lemma WindowSpansTwoChunksPerAxis(player: BlockPos, i: int)
    requires InRange(player) && 0 <= i < 128
    ensures ChunkCoord(Corner(player).x) <= ChunkCoord(WorldX(player, i)) <= ChunkCoord(Corner(player).x) + 1
    ensures ChunkCoord(Corner(player).z) <= ChunkCoord(WorldZ(player, i)) <= ChunkCoord(Corner(player).z) + 1
  {
    FloorDivStep(player.x - 64, i);
    FloorDivStep(player.z - 64, i);
  }

  lemma FloorDivStep(a: int, i: int)
    requires 0 <= i < 128
    ensures a / 128 <= (a + i) / 128 <= a / 128 + 1
  {
    var q, r := a / 128, a % 128;
    if r + i < 128 {
      DivModUnique(a + i, 128, q, r + i);
    } else {
      DivModUnique(a + i, 128, q + 1, r + i - 128);
    }
  }

  /** A window whose corner is a chunk origin shows that one chunk's raster unchanged. */
  lemma AlignedWindowShowsOneChunk(world: WorldMap, player: BlockPos, palette: Palette, x: int, z: int)
    requires InRange(player) && 0 <= x < 128 && 0 <= z < 128
    requires (player.x - 64) % 128 == 0 && (player.z - 64) % 128 == 0
    ensures var key := ((player.x - 64) / 128, (player.z - 64) / 128);
            SamplePixel(world, player, palette, x, z)
            == if key in world then PixelColor(ColorIndex(world[key].colors[x + 128 * z]), palette) else 0
  {
    var cx, cz := (player.x - 64) / 128, (player.z - 64) / 128;
    ChunkDecompositionUnique(WorldX(player, x), cx, x);
    ChunkDecompositionUnique(WorldZ(player, z), cz, z);
  }

  /** A pixel whose chunk is absent from the map is transparent. */
  lemma AbsentChunkIsTransparent(world: WorldMap, player: BlockPos, palette: Palette, x: int, z: int)
    requires 0 <= x < 128 && 0 <= z < 128
    requires (ChunkCoord(WorldX(player, x)), ChunkCoord(WorldZ(player, z))) !in world
    ensures SamplePixel(world, player, palette, x, z) == 0
  {
  }

  /** The colour a refresh writes for a raster byte is the reference colour. */
  lemma ColorIsReference(b: Int8, palette: Palette)
    ensures PixelColor(ColorIndex(b), palette) == ReferenceColor(b, palette)
  {
    assert ColorIndex(b) == (b as int) % 256;
  }

  /**
   * The pixel a refresh computes for a world column with `>>`, `&` and a signed
   * byte is the reference colour computed with floor division, Euclidean
   * remainder and the unsigned byte.
   */
  lemma ColumnPixelIsReference(world: WorldMap, palette: Palette, absoluteX: Int32, absoluteZ: Int32)
    ensures ColumnPixel(world, palette, absoluteX, absoluteZ) == ReferenceColumn(world, palette, absoluteX, absoluteZ)
  {
    var key := (ChunkCoord(absoluteX), ChunkCoord(absoluteZ));
    if key in world {
      var pos := RasterIndex(InnerCoord(absoluteX), InnerCoord(absoluteZ));
      ColorIsReference(world[key].colors[pos], palette);
    }
  }

  /** The refreshed pixel agrees with the reference definition. */
  lemma SamplePixelIsReference(world: WorldMap, player: BlockPos, palette: Palette, x: int, z: int)
    requires InRange(player) && 0 <= x < 128 && 0 <= z < 128
    ensures SamplePixel(world, player, palette, x, z) == ReferencePixel(world, player, palette, x, z)
  {
    WindowIsCentred(player, x, z);
    ColumnPixelIsReference(world, palette, WorldX(player, x), WorldZ(player, z));
  }

  // ---------------------------------------------------------------------
  // The widget.

  class MapHud {
    var visible: bool
    var dirty: bool
    /** The texture's image, indexed [x, z] as `setPixelColor(x, z, ...)` is. */
    const texture: array2<Int32>

    ghost predicate Valid()
      reads this
    {
      texture.Length0 == 128 && texture.Length1 == 128
    }

    /** Every texture pixel holds what a refresh for this map and player writes there. */
    ghost predicate Shows(world: WorldMap, player: BlockPos, palette: Palette)
      reads this, texture
      requires Valid()
    {
      forall x, z :: 0 <= x < 128 && 0 <= z < 128 ==> texture[x, z] == SamplePixel(world, player, palette, x, z)
    }

    /** A new HUD is visible and dirty, over a fresh, zero-filled (transparent) 128 x 128 texture. */
    constructor ()
      ensures Valid() && fresh(texture)
      ensures visible && dirty
      ensures forall x, z :: 0 <= x < 128 && 0 <= z < 128 ==> texture[x, z] == 0
    {
      visible := true;
      dirty := true;
      texture := new Int32[128, 128]((x, z) => 0);
    }

    method MarkDirty()
      modifies this`dirty
      ensures dirty
    {
      dirty := true;
    }

    method IsVisible() returns (v: bool)
      ensures v == visible
    {
      v := visible;
    }

    method SetVisible(v: bool)
      modifies this`visible
      ensures visible == v
    {
      visible := v;
    }

    /** The body of the refresh's inner loop: the pixel for column `x` of row `z`. */
    static method ReadPixel(world: WorldMap, player: BlockPos, palette: Palette, x: int, z: int,
                            corner: BlockPos, chunkZ: Int32, chunkInnerZ: Int32) returns (pixel: Int32)
      requires 0 <= x < 128 && 0 <= z < 128 && corner == Corner(player)
      requires chunkZ == ChunkCoord(WorldZ(player, z)) && chunkInnerZ == InnerCoord(WorldZ(player, z))
      ensures pixel == SamplePixel(world, player, palette, x, z)
    {
      var absoluteX := JavaInt.Add(corner.x, x);
      var chunkX := ChunkCoord(absoluteX);
      var chunkInnerX := InnerCoord(absoluteX);

      var chunk := GetChunk(world, chunkX, chunkZ);
      if chunk.None? {
        return 0;
      }

      var pos := chunkInnerX + chunkInnerZ * 128;
      assert pos == RasterIndex(InnerCoord(WorldX(player, x)), InnerCoord(WorldZ(player, z)));
      var color := ColorIndex(chunk.value.colors[pos]);
      assert SamplePixel(world, player, palette, x, z) == PixelColor(color, palette);
      if Div(color, 4) == 0 {
        pixel := 0;
      } else {
        pixel := palette(Div(color, 4), And(color, 3));
      }
    }

    /** The refresh's inner loop: writes row `z` of the texture and no other pixel. */
    method FillRow(world: WorldMap, player: BlockPos, palette: Palette, z: int,
                   corner: BlockPos, chunkZ: Int32, chunkInnerZ: Int32)
      requires Valid() && 0 <= z < 128 && corner == Corner(player)
      requires chunkZ == ChunkCoord(WorldZ(player, z)) && chunkInnerZ == InnerCoord(WorldZ(player, z))
      modifies texture
      ensures forall i :: 0 <= i < 128 ==> texture[i, z] == SamplePixel(world, player, palette, i, z)
      ensures forall i, j :: 0 <= i < 128 && 0 <= j < 128 && j != z ==> texture[i, j] == old(texture[i, j])
    {
      for x := 0 to 128
        invariant forall i :: 0 <= i < x ==> texture[i, z] == SamplePixel(world, player, palette, i, z)
        invariant forall i, j :: 0 <= i < 128 && 0 <= j < 128 && j != z ==> texture[i, j] == old(texture[i, j])
      {
        var pixel := ReadPixel(world, player, palette, x, z, corner, chunkZ, chunkInnerZ);
        texture[x, z] := pixel;
      }
    }

    /**
     * Refreshes the texture from `world` around `player` when the HUD is
     * visible, no screen is open and the texture is dirty; otherwise changes
     * nothing.  A refresh clears `dirty` and writes every one of the 128 x 128
     * pixels.
     */
    method UpdateTexture(world: WorldMap, screenOpen: bool, player: BlockPos, palette: Palette)
      requires Valid()
      modifies this`dirty, texture
      ensures Refreshes(old(visible), old(dirty), screenOpen) ==> !dirty && Shows(world, player, palette)
      ensures !Refreshes(old(visible), old(dirty), screenOpen) ==> dirty == old(dirty) && unchanged(texture)
    {
      if !visible || screenOpen {
        return;
      }
      if !dirty {
        return;
      } else {
        dirty := false;
      }

      var corner := player.Add(-64, 0, -64);
      for z := 0 to 128
        modifies texture
        invariant forall i, j :: 0 <= i < 128 && 0 <= j < z ==> texture[i, j] == SamplePixel(world, player, palette, i, j)
      {
        var absoluteZ := JavaInt.Add(corner.z, z);
        var chunkZ := ChunkCoord(absoluteZ);
        var chunkInnerZ := InnerCoord(absoluteZ);
        FillRow(world, player, palette, z, corner, chunkZ, chunkInnerZ);
      }
    }
  }
}
