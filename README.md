# LambdaMap HUD refresh, modelled in Dafny

LambdaMap is a Minecraft client mod that keeps a world map. Its HUD widget (`MapHud`) shows the 128 x 128 map pixels around the player as a texture. The widget has two flags: `visible`, which the user toggles, and `dirty`, which `markDirty` sets. `updateTexture` refreshes the texture only when the HUD is visible, no screen is open and the texture is dirty. A refresh clears `dirty`. It then samples, for every texture pixel (x, z), the world column at the player's block position offset by (x - 64, z - 64). It finds the chunk that holds the column with `>> 7` and the column's offset inside that chunk with `& 127`. It reads the chunk's colour byte unsigned (`& 255`). Family 0 is written as transparent. Any other family is written as the game's colour for that family and shade.

The project has three modules:

- `JavaInt` (`java_int.dfy`) models Java's 32-bit `int`: wrapping `+`, truncating `/`, and `>>` and `&` defined bit by bit on the two's-complement pattern. It proves that `a >> k` is floor division by 2^k and that `a & (2^k - 1)` is the Euclidean remainder modulo 2^k, for negative `a` too.
- `WorldMaps` (`world_map.dfy`) models what the HUD reads from the world map: a finite map from chunk coordinates to chunks, each holding a 128 x 128 byte raster.
- `LambdaMap` (`map_hud.dfy`) models the widget. `MapHud` is a class with the two flags and a 128 x 128 `array2` texture. `UpdateTexture` keeps the source's nested loops. The pixel the refresh writes is specified by the function `SamplePixel`. The lemmas relate that function to a reference definition over mathematical integers (`ReferencePixel`) and state the chunk arithmetic, the centring of the window and the colour decoding.

The host game is reduced to inputs:

- the player's block position and whether a screen is open are parameters of `UpdateTexture`;
- `MapColor.COLORS[family].getRenderColor(shade)` is a function parameter `palette`.

## Model

| member | source | states |
|---|---|---|
| JavaInt.ShiftRight | src/main/java/me/lambdaurora/lambdamap/MapHud.java:71 | Java `a >> n` (count taken mod 32) is floor division of `a` by 2^(n mod 32), for negative `a` as well; `ShiftRightIsFloorDiv` restates it for counts below 32 |
| JavaInt.ShiftRightIsFloorDiv | src/main/java/me/lambdaurora/lambdamap/MapHud.java:71 | Java `a >> n` with a count below 32 equals floor division of `a` by 2^n, for negative `a` as well (sign extension rounds toward minus infinity) |
| JavaInt.ShiftRightByIsFloorDiv | src/main/java/me/lambdaurora/lambdamap/MapHud.java:75 | k sign-extending one-bit shifts divide by 2^k with floor rounding |
| JavaInt.ShiftRightOnceHalves | src/main/java/me/lambdaurora/lambdamap/MapHud.java:71 | one arithmetic shift step, which keeps the sign bit, is floor division by 2 |
| JavaInt.And | src/main/java/me/lambdaurora/lambdamap/MapHud.java:72 | Java `a & b` on the two's-complement patterns; with a non-negative mask `b` the result lies in [0, b]; `AndLowMask` states what a low-bit mask computes |
| JavaInt.AndLowMask | src/main/java/me/lambdaurora/lambdamap/MapHud.java:72 | Java `a & (2^k - 1)` with k below 32 is the non-negative remainder `a mod 2^k`, also for negative `a`; the mask is a valid `int` |
| JavaInt.AndBitsBound | src/main/java/me/lambdaurora/lambdamap/MapHud.java:72 | the bitwise AND of two patterns never exceeds the second operand |
| JavaInt.AndBitsLowMask | src/main/java/me/lambdaurora/lambdamap/MapHud.java:76 | bitwise AND of n bits with the mask of k low ones (k <= n) keeps exactly the remainder modulo 2^k |
| JavaInt.UnsignedMod | src/main/java/me/lambdaurora/lambdamap/MapHud.java:85 | an `int` and its unsigned two's-complement pattern agree modulo every power of two up to 2^32 |
| JavaInt.SignedUnsigned | src/main/java/me/lambdaurora/lambdamap/MapHud.java:85 | reading back the two's-complement pattern of an `int` gives the same `int` |
| JavaInt.Signed | src/main/java/me/lambdaurora/lambdamap/MapHud.java:85 | the `int` built from a pattern below 2^32 has exactly that pattern |
| JavaInt.Wrap | src/main/java/me/lambdaurora/lambdamap/MapHud.java:68-74 | the 32-bit overflow of `int` `+`: the result is congruent to the exact value modulo 2^32 and equals it when it fits |
| JavaInt.Add | src/main/java/me/lambdaurora/lambdamap/MapHud.java:70 | Java `int` addition is congruent to the exact sum modulo 2^32 and equals it when the sum fits |
| JavaInt.AddAdd | src/main/java/me/lambdaurora/lambdamap/MapHud.java:68-70 | two wrapping additions in a row equal the exact three-term sum wrapped once |
| JavaInt.Div | src/main/java/me/lambdaurora/lambdamap/MapHud.java:86 | Java `/` on a non-negative dividend and a positive divisor is the mathematical quotient |
| WorldMaps.GetChunk | src/main/java/me/lambdaurora/lambdamap/MapHud.java:78 | the lookup is absent exactly when no chunk is stored at those coordinates, and otherwise returns the stored chunk |
| LambdaMap.ChunkCoord | src/main/java/me/lambdaurora/lambdamap/MapHud.java:71 | `a >> 7` is `floor(a / 128)` |
| LambdaMap.InnerCoord | src/main/java/me/lambdaurora/lambdamap/MapHud.java:72 | `a & 127` is `a mod 128`, always in [0, 128) |
| LambdaMap.ChunkDecomposition | src/main/java/me/lambdaurora/lambdamap/MapHud.java:70-76 | every coordinate equals chunk * 128 + inner with inner in [0, 128), negative coordinates included |
| LambdaMap.ChunkDecompositionUnique | src/main/java/me/lambdaurora/lambdamap/MapHud.java:70-76 | that split is the only one with an offset in [0, 128): any chunk/inner pair recombining to `a` is the one computed |
| LambdaMap.RasterIndex | src/main/java/me/lambdaurora/lambdamap/MapHud.java:84 | `innerX + innerZ * 128` lies in [0, 16384), and the offsets can be read back from it as index mod 128 and index / 128 |
| LambdaMap.ColorIndex | src/main/java/me/lambdaurora/lambdamap/MapHud.java:85 | a byte masked with 255 is its unsigned value: in [0, 256), equal to the byte mod 256, and the byte plus 256 exactly when the byte is negative |
| LambdaMap.PixelColor | src/main/java/me/lambdaurora/lambdamap/MapHud.java:86-89 | colour indices 0..3 (family 0) give the transparent pixel 0; index c >= 4 gives `palette(c / 4, c mod 4)`, with family in 1..63 and shade in 0..3 |
| LambdaMap.BlockPos.Add | src/main/java/me/lambdaurora/lambdamap/MapHud.java:68 | component-wise Java `int` addition of a block position; `WindowWraps` and `WindowIsCentred` state what the corner it gives is |
| LambdaMap.Corner | src/main/java/me/lambdaurora/lambdamap/MapHud.java:68 | the corner `player.add(-64, 0, -64)`; `WindowWraps` states the coordinates it leads to |
| LambdaMap.WorldX | src/main/java/me/lambdaurora/lambdamap/MapHud.java:74 | column x's world X coordinate `corner.x + x`; `WindowWraps` and `WindowIsCentred` state its value |
| LambdaMap.WorldZ | src/main/java/me/lambdaurora/lambdamap/MapHud.java:70 | row z's world Z coordinate `corner.z + z`; `WindowWraps` and `WindowIsCentred` state its value |
| LambdaMap.SamplePixel | src/main/java/me/lambdaurora/lambdamap/MapHud.java:70-89 | the pixel one pass of the inner loop writes: the column pixel at the window's coordinates for (x, z); `SamplePixelIsReference` ties it to the reference definition and `AbsentChunkIsTransparent` states the missing-chunk case |
| LambdaMap.ColumnPixel | src/main/java/me/lambdaurora/lambdamap/MapHud.java:71-89 | the pixel for an absolute world column: chunk lookup by `>> 7`, offset by `& 127`, byte read with `& 255`, then family and shade; `ColumnPixelIsReference` states its value |
| LambdaMap.ColumnPixelIsReference | src/main/java/me/lambdaurora/lambdamap/MapHud.java:71-89 | for every pair of `int` world coordinates, including negative ones, the pixel computed with `>>`, `&` and a signed byte equals the reference colour: chunk (floor(X / 128), floor(Z / 128)), raster index (X mod 128) + 128 (Z mod 128), unsigned byte split into family and shade, and 0 when the chunk is absent |
| LambdaMap.ColorIsReference | src/main/java/me/lambdaurora/lambdamap/MapHud.java:85-89 | for every raster byte, the pixel written from `byte & 255` equals the reference colour of the byte's unsigned value |
| LambdaMap.Refreshes | src/main/java/me/lambdaurora/lambdamap/MapHud.java:63-66 | the refresh condition: visible, no screen open, dirty; `UpdateTexture`'s contract gives both outcomes under it |
| LambdaMap.WindowIsCentred | src/main/java/me/lambdaurora/lambdamap/MapHud.java:68-76 | without overflow, texture pixel (x, z) shows world column (px - 64 + x, pz - 64 + z) |
| LambdaMap.PlayerAtCentre | src/main/java/me/lambdaurora/lambdamap/MapHud.java:68-76 | for every player position, texture pixel (64, 64) shows the player's own column |
| LambdaMap.WindowWraps | src/main/java/me/lambdaurora/lambdamap/MapHud.java:68-76 | for any player position, the column and row sampled are those exact sums wrapped as Java `int`s |
| LambdaMap.WindowSpansTwoChunksPerAxis | src/main/java/me/lambdaurora/lambdamap/MapHud.java:69-78 | the chunk coordinates the refresh looks up lie within one step of the corner's chunk on each axis, so at most four chunks are read |
| LambdaMap.AlignedWindowShowsOneChunk | src/main/java/me/lambdaurora/lambdamap/MapHud.java:70-89 | when the corner is a chunk origin, pixel (x, z) is the decoded byte at raster index x + 128 * z of that one chunk, or transparent if the chunk is absent |
| LambdaMap.AbsentChunkIsTransparent | src/main/java/me/lambdaurora/lambdamap/MapHud.java:78-82 | a pixel whose chunk is missing from the map is written as 0 |
| LambdaMap.SamplePixelIsReference | src/main/java/me/lambdaurora/lambdamap/MapHud.java:68-90 | the pixel the refresh computes with `int` operations equals the reference definition with floor division, Euclidean remainder and the unsigned byte |
| LambdaMap.MapHud.constructor | src/main/java/me/lambdaurora/lambdamap/MapHud.java:38-41 | a new HUD is visible and dirty, over a fresh zero-filled 128 x 128 texture |
| LambdaMap.MapHud.MarkDirty | src/main/java/me/lambdaurora/lambdamap/MapHud.java:50-52 | sets `dirty` and changes nothing else |
| LambdaMap.MapHud.IsVisible | src/main/java/me/lambdaurora/lambdamap/MapHud.java:54-56 | returns the `visible` flag |
| LambdaMap.MapHud.SetVisible | src/main/java/me/lambdaurora/lambdamap/MapHud.java:58-60 | sets `visible` to the argument and changes nothing else |
| LambdaMap.MapHud.ReadPixel | src/main/java/me/lambdaurora/lambdamap/MapHud.java:74-90 | the inner loop body, given the corner computed once before the loops, computes exactly the pixel `SamplePixel` specifies, for a present chunk as well as an absent one |
| LambdaMap.MapHud.FillRow | src/main/java/me/lambdaurora/lambdamap/MapHud.java:73-91 | the inner loop writes every pixel of row z as specified and leaves every other row unchanged |
| LambdaMap.MapHud.UpdateTexture | src/main/java/me/lambdaurora/lambdamap/MapHud.java:62-92 | if the HUD was visible, no screen is open and it was dirty, then `dirty` ends false and every one of the 128 x 128 pixels shows the sampled window; otherwise `dirty` and the texture are unchanged; `visible` and the map are never modified |

## Left out

- `render`, `renderPlayerIcon` and `vertex` (MapHud.java:97-155) are left out. They draw with the game's rendering engine, which is outside the model.
- The texture upload at the end of a refresh (MapHud.java:94) and `close` (MapHud.java:157-159) are left out. They are calls on the native texture object with no effect on the modelled state.
- Registering the texture in the constructor (MapHud.java:45-47) is left out. It is a call into the game's texture manager with no effect on the modelled state.
- The `client` object is reduced to parameters. The model does not cover a null `client.player`, which throws in Java.
- `WorldMap` and `MapChunk` are not part of this model except as a finite map of 16384-byte rasters. Their loading, merging and saving are out of scope.
- `MapColor.COLORS` and `getRenderColor` are a total function parameter `palette`. A family whose `COLORS` entry is null would throw in Java, and the model does not cover that case.
- LambdaMap.MapHud.constructor: the zero-filled initial texture relies on the game's image allocation (`NativeImage` clears its buffer when asked to), which is not part of this model.
- LambdaMap.WindowIsCentred: stated only for positions at least 64 blocks inside the `int` range (`InRange`). Within 64 blocks of either end the Java additions wrap, and `WindowWraps` states what is sampled then.
- LambdaMap.WindowSpansTwoChunksPerAxis: stated only under `InRange`. When the window wraps past `MAX_INT`, its last columns lie in chunks near the negative end, so the one-step bound does not hold.
- LambdaMap.SamplePixelIsReference: stated under the same `InRange` condition, because the reference definition uses unwrapped coordinates.
- JavaInt.Div: its contract covers only a non-negative dividend and a positive divisor, the only case the HUD uses. The body models truncation toward zero and the `MIN_INT / -1` wrap for all other operands.
- `UpdateTexture` is split into the row loop `FillRow` and its body `ReadPixel`. This keeps each proof small. The corner is computed once before the loops and passed down. The other computations and their order are those of the source.
