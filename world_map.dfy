/**
 * The part of the world map that the HUD consumes: a sparse map from chunk
 * coordinates to chunks, each chunk holding a 128 x 128 raster of map-colour
 * bytes stored row by row (`x + z * 128`).  How chunks are filled, merged or
 * persisted is not part of this model; the HUD only looks chunks up.
 */
module WorldMaps {
  import opened JavaInt

  /** Side length of a chunk, in map pixels (one pixel per block column). */
  const CHUNK_SIZE: int := 128

  /** Number of bytes in a chunk's raster. */
  const RASTER_SIZE: int := 16384

  /** A chunk's colour raster: always exactly 128 * 128 Java bytes. */
  type Raster = s: seq<Int8> | |s| == 16384 witness seq(16384, _ => 0)

  datatype MapChunk = MapChunk(colors: Raster)

  /** The world map: chunk coordinates (chunkX, chunkZ) to the chunk stored there, if any. */
  type WorldMap = map<(Int32, Int32), MapChunk>

  datatype Option<T> = None | Some(value: T)

  /** `WorldMap.getChunk`: the chunk at the given chunk coordinates, or `None` (Java `null`). */
  function GetChunk(world: WorldMap, chunkX: Int32, chunkZ: Int32): (r: Option<MapChunk>)
    ensures r.None? <==> (chunkX, chunkZ) !in world
    ensures r.Some? ==> r.value == world[(chunkX, chunkZ)]
  {
    if (chunkX, chunkZ) in world then Some(world[(chunkX, chunkZ)]) else None
  }
}
