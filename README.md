# Biome lookup and biome texture pixels

This project models the biome stage of a procedural terrain generator for a Unity
tile world. A biome table (`biomeRows`) holds one row per moisture terrain type and,
in each row, one biome per heat terrain type. `BiomeBuilder.GetBiome` resolves a
(heat type, moisture type) pair to a biome by reading row `moisture.index`, then
column `heat.index` of that row. `BiomeBuilder.BuildTexture` takes the two classified
grids (heat types and moisture types), walks a `size` x `size` square of cells, and
writes each cell's biome colour into a flat `size * size` pixel array. `size` is the
heat grid's first dimension. Cell (x, z) goes to slot `x * size + z` (row-major).

The model has three modules:

- `BiomeData` (biome_data.dfy): the values. `Color` (four channels, only copied),
  `Biome` (name and colour), `BiomeRow` (a sequence of biomes; rows may differ in
  length), `TerrainType` (its table `index`), and `Result`/`Fault` for the
  runtime's `IndexOutOfRangeException` and `OverflowException`.
- `PixelGrid` (pixel_grid.dfy): the row-major flattening `PixelIndex` and its inverse
  `CellOf`. Together they show the flattening is a bijection between the square of
  cells and the slots `[0, size * size)`. The module also holds the 32-bit `int`
  arithmetic (`WrapInt`) in which the source computes lengths and slots.
- `BiomeBuilder` (biome_builder.dfy): the table lookup, and the pixel loop as a
  method over `array2` grids that fills a fresh `array<Color>`.

The C# code does not check any index. An index outside its array raises
`IndexOutOfRangeException`. The model writes each such access as an explicit bounds
test that returns `Failure(IndexOutOfRange)`. The contracts say exactly when this
happens. Neither `GetBiome` nor `BuildTexturePixels` has a precondition. The
`requires` of `CellPixel` holds only the loop bounds that its caller already
guarantees (`0 <= x < size`, `0 <= z`). Those of `PixelIndex` and `CellOf` state the
domain of the flattening.
The table is a field of the `MonoBehaviour`. Unity's inspector sets it and the
class never writes it, so here it is an explicit `seq<BiomeRow>` parameter.

The table's dimensions are never checked against the numbers of heat and moisture
terrain types. A short row or a bad index fails only at lookup time, and the model
does the same. It states the intended shape of the table separately as `IsComplete`:
one row per moisture type, one column per heat type. It proves that with such a table,
every cell of square grids of equal size classified against it resolves. The pixel
stage on those grids therefore does not fault when the side is at most 46340
(`MaxSide`). Larger sides fail from the 32-bit arithmetic described next. Grids of
other shapes can still fault: a heat grid narrower than it is tall makes the loop read
past its second dimension.

The C# code computes the pixel count `size * size` and the slot `x * size + z` in
unchecked 32-bit `int` arithmetic. The model computes them with `WrapInt`, which
wraps an exact value into 32-bit two's complement. A wrapped pixel count that is
negative makes `new Color[...]` raise `OverflowException` (`Overflow` here) before the
loop starts. The slot itself never wraps: the loop only reaches slot `x * size + z`
after filling every slot below it, so the slot is below the array's length and thus
below 2^31. A pixel count that wraps to a non-negative `L` smaller than `size * size`
(65536 gives 0, 65537 gives 131073) allocates an array that is too short, and the
write to slot `L`, the first slot past it, raises `IndexOutOfRange`. As a result the pixel stage succeeds only for heat grids whose first dimension is at
most 46340 (`MaxSide`).

## Model

| member | source | states |
|---|---|---|
| `BiomeBuilder.GetBiome` | Assets/Scripts/BiomeBuilder.cs:45-48 | The lookup succeeds if and only if the moisture index is a row of the table and the heat index is a column of that same row. The bound is per row because rows may differ in length. On success the biome is the entry at row moisture, column heat, never the transposed entry. Otherwise the fault is IndexOutOfRange. |
| `BiomeBuilder.CompleteTableResolves` | Assets/Scripts/BiomeBuilder.cs:45-55 | For a rectangular table (one row per moisture type, each row one biome per heat type), a pair resolves exactly when both indices are below their type counts. |
| `BiomeBuilder.CellPixel` | Assets/Scripts/BiomeBuilder.cs:27-32 | The loop body for one cell reads both grids at (x, z), then the table. It succeeds exactly when the cell lies in both grids and its types name a table entry. Its colour is then the colour of `GetBiome` of the cell's types, so the texture path and the direct lookup agree. Its only fault is IndexOutOfRange. |
| `BiomeBuilder.BuildTexturePixels` | Assets/Scripts/BiomeBuilder.cs:16-34 | The pixel stage succeeds if and only if `size` (the heat grid's first dimension) is at most 46340 and every cell of the `size` x `size` square resolves. It raises Overflow exactly when the 32-bit `size * size` is negative; every other failure is IndexOutOfRange. On success it returns a fresh array of exactly `size * size` pixels. Slot `PixelIndex(x, z)` holds the biome colour of cell (x, z), and every slot holds the colour of the cell `CellOf` maps it to. Every slot in `[0, size * size)` is written exactly once and no other slot is written. The grids and the table are only read. |
| `BiomeBuilder.BuildableGridsCoverSquare` | Assets/Scripts/BiomeBuilder.cs:18-28 | Both loops run to the heat grid's first dimension. So if the pixel stage succeeds on a non-empty grid, the heat grid's second dimension and both moisture-grid dimensions are at least that size. |
| `BiomeBuilder.ClassifiedGridsBuildable` | Assets/Scripts/BiomeBuilder.cs:21-30 | Take square grids of equal size whose heat and moisture indices are below the type counts of a complete table. For them, every cell resolves. With `BuildTexturePixels`'s contract, the pixel stage then does not fault when the side is at most 46340 (`MaxSide`). Larger sides fail from the 32-bit arithmetic (Overflow, or IndexOutOfRange at slot L, the first slot past a wrapped length L). |
| `PixelGrid.PixelIndex` | Assets/Scripts/BiomeBuilder.cs:19-25 | For 0 <= x, z < size, the flat index `x * size + z` lies in `[0, size * size)`, the bounds of the allocated pixel array. |
| `PixelGrid.CellOf` | Assets/Scripts/BiomeBuilder.cs:19-25 | Every slot of the `size * size` array is the flat index of a cell of the square. So no pixel is skipped: the flattening is onto. |
| `PixelGrid.PixelIndexInjective` | Assets/Scripts/BiomeBuilder.cs:21-25 | Distinct cells have distinct flat indices. So no pixel is written twice: the flattening is one-to-one. |
| `PixelGrid.WrapInt` | Assets/Scripts/BiomeBuilder.cs:19-25 | The 32-bit value of an `int` expression: it lies in the `int` range, differs from the exact value by a multiple of 2^32, and equals the exact value when that fits. |
| `PixelGrid.SquareFitsInt` | Assets/Scripts/BiomeBuilder.cs:19 | `size * size` fits in an `int` exactly when `size` is at most 46340. |
| `PixelGrid.SquareWrapsNegative` | Assets/Scripts/BiomeBuilder.cs:19 | For every `size` from 46341 to 65535, the 32-bit `size * size` is negative, so the allocation raises OverflowException whatever the grid's other dimensions. |
| `PixelGrid.CellOfPixelIndex` | Assets/Scripts/BiomeBuilder.cs:21-25 | Unflattening the flat index of a cell gives that cell back (round trip). |

## Left out

- `Texture2D` construction, `wrapMode`, `filterMode`, `SetPixels` and `Apply` (Assets/Scripts/BiomeBuilder.cs:36-42) are Unity engine calls. The model stops at the filled pixel array.
- The static `instance` singleton and `Awake` (Assets/Scripts/BiomeBuilder.cs:9-14) are engine lifecycle code with nothing to verify. The table is an explicit parameter instead.
- `null` references are not modelled: a null `biomeRows`, a null `BiomeRow` element, a null row array (`biomes`), a null `Biome` element (read at `biome.color`, Assets/Scripts/BiomeBuilder.cs:32), a null grid (`heatMapType` or `moistureMapTypes`), or a null grid element. C# would raise `NullReferenceException` for these. Unity's serializer fills serialized arrays, and the grids' producer is not part of this model.
- `TerrainType` is reduced to its `index`. TerrainType.cs is not part of this model, and no other field of it is read here.
- The inside of `Color` and the `name` of a `Biome` are only copied.
- BiomeBuilder.BuildTexturePixels: running out of memory at the allocation (`OutOfMemoryException`) and the runtime's own limits on array length are not modelled. Its "if and only if" assumes that `new Color[n]` succeeds for every non-negative `n`.
- BiomeBuilder.BuildTexturePixels: on a fault it states which exception is raised, but not which cell faults first. The pixels written before the fault are lost with the local array, as in the source.
- Assets/Scripts/TileGenerator.cs is Unity component wiring (`GetComponent`, `Start`, material assignment). It calls `TextureBuilder`, which is not part of this model.
- Assets/Scripts/NoiseGenerator.cs is a loop around `Mathf.PerlinNoise`, an engine function that is not visible, at floating-point sample positions.
- The rest of the terrain pipeline is not modelled, because none of it is in the code this model covers. That includes noise wave stacks, latitude gradients, the heat and moisture formulas, threshold classification of the continuous fields into terrain types, and the per-cell terrain data map.
