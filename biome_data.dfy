/** The values the biome builder works on: Unity colours, the serialized Biome
    and BiomeRow classes, the classified terrain types, and the fault the
    runtime raises when an index is out of range. */
module BiomeData {

  /** A Unity `Color`: four float channels. The model only copies colours. */
  datatype Color = Color(r: real, g: real, b: real, a: real)

  /** A biome descriptor: a display name and the colour painted for it. */
  datatype Biome = Biome(name: string, color: Color)

  /** One row of the biome table: the biomes of one moisture type, indexed by heat type.
      Rows are independent arrays, so they may differ in length. */
  datatype BiomeRow = BiomeRow(biomes: seq<Biome>)

  /** A classified terrain type. Only its position in its type table is read here. */
  datatype TerrainType = TerrainType(index: int)

  /** The exceptions the runtime raises here: IndexOutOfRange for an array access
      outside the array's bounds, Overflow for an array allocated with a negative length. */
  datatype Fault = IndexOutOfRange | Overflow

  /** Either the value an operation returns or the fault it raises. */
  datatype Result<+T> = Success(value: T) | Failure(error: Fault)
}
