/** The biome table lookup and the pixel stage of the biome texture.
    The table `biomeRows` is indexed first by moisture type (the row) and then
    by heat type (the column). */
module BiomeBuilder {
  import opened BiomeData
  import opened PixelGrid

  /** The (heat, moisture) pair names an entry of the table: the moisture index
      is a row, and the heat index is a column of THAT row. */
  predicate InTable(biomeRows: seq<BiomeRow>, heatType: TerrainType, moistureType: TerrainType)
  {
    0 <= moistureType.index < |biomeRows| &&
    0 <= heatType.index < |biomeRows[moistureType.index].biomes|
  }

  /** The biome of a (heat, moisture) pair. The lookup succeeds exactly for the
      pairs the table holds; any other pair raises IndexOutOfRange. */
  function GetBiome(biomeRows: seq<BiomeRow>, heatTerrainType: TerrainType, moistureTerrainType: TerrainType): (r: Result<Biome>)
    ensures r.Success? <==> InTable(biomeRows, heatTerrainType, moistureTerrainType)
    ensures r.Success? ==> r.value == biomeRows[moistureTerrainType.index].biomes[heatTerrainType.index]
    ensures r.Failure? ==> r.error == IndexOutOfRange
  {
    if !(0 <= moistureTerrainType.index < |biomeRows|) then
      Failure(IndexOutOfRange)
    else
      var row := biomeRows[moistureTerrainType.index].biomes;
      if !(0 <= heatTerrainType.index < |row|) then
        Failure(IndexOutOfRange)
      else
        Success(row[heatTerrainType.index])
  }

  /** A rectangular table with one row per moisture type and one column per heat type. */
  predicate IsComplete(biomeRows: seq<BiomeRow>, heatCount: nat, moistureCount: nat)
  {
    |biomeRows| == moistureCount &&
    forall m :: 0 <= m < |biomeRows| ==> |biomeRows[m].biomes| == heatCount
  }

  /** A complete table resolves every pair of in-range type indices. */
  lemma CompleteTableResolves(biomeRows: seq<BiomeRow>, heatCount: nat, moistureCount: nat, heatType: TerrainType, moistureType: TerrainType)
    requires IsComplete(biomeRows, heatCount, moistureCount)
    ensures GetBiome(biomeRows, heatType, moistureType).Success? <==>
              0 <= heatType.index < heatCount && 0 <= moistureType.index < moistureCount
  {
  }

  /** Cell (x, z) of both grids can be read and its types name a table entry. */
  ghost predicate CellResolves(biomeRows: seq<BiomeRow>, heatMapType: array2<TerrainType>,
                               moistureMapTypes: array2<TerrainType>, x: int, z: int)
    reads heatMapType, moistureMapTypes
  {
    0 <= x < heatMapType.Length0 && 0 <= z < heatMapType.Length1 &&
    x < moistureMapTypes.Length0 && z < moistureMapTypes.Length1 &&
    InTable(biomeRows, heatMapType[x, z], moistureMapTypes[x, z])
  }

  /** Every cell of the `size` x `size` square that the texture covers resolves,
      where `size` is the first dimension of the heat grid. */
  ghost predicate Buildable(biomeRows: seq<BiomeRow>, heatMapType: array2<TerrainType>, moistureMapTypes: array2<TerrainType>)
    reads heatMapType, moistureMapTypes
  {
    var size := heatMapType.Length0;
    forall x, z :: 0 <= x < size && 0 <= z < size ==> CellResolves(biomeRows, heatMapType, moistureMapTypes, x, z)
  }

  /** The colour of the biome of a resolving cell. */
  ghost function CellColor(biomeRows: seq<BiomeRow>, heatMapType: array2<TerrainType>,
                           moistureMapTypes: array2<TerrainType>, x: int, z: int): Color
    reads heatMapType, moistureMapTypes
    requires CellResolves(biomeRows, heatMapType, moistureMapTypes, x, z)
  {
    GetBiome(biomeRows, heatMapType[x, z], moistureMapTypes[x, z]).value.color
  }

  /** Both loops run to the heat grid's first dimension, so a buildable pair of
      grids is at least that large in every other dimension. */
  lemma BuildableGridsCoverSquare(biomeRows: seq<BiomeRow>, heatMapType: array2<TerrainType>, moistureMapTypes: array2<TerrainType>)
    requires Buildable(biomeRows, heatMapType, moistureMapTypes)
    ensures heatMapType.Length0 > 0 ==>
              heatMapType.Length1 >= heatMapType.Length0 &&
              moistureMapTypes.Length0 >= heatMapType.Length0 &&
              moistureMapTypes.Length1 >= heatMapType.Length0
  {
    var size := heatMapType.Length0;
    if size > 0 {
      assert CellResolves(biomeRows, heatMapType, moistureMapTypes, size - 1, size - 1);
    }
  }

  /** Grids classified against a complete table (square, every heat index below
      the heat count and every moisture index below the moisture count) are buildable. */
  lemma ClassifiedGridsBuildable(biomeRows: seq<BiomeRow>, heatCount: nat, moistureCount: nat,
                                 heatMapType: array2<TerrainType>, moistureMapTypes: array2<TerrainType>)
    requires IsComplete(biomeRows, heatCount, moistureCount)
    requires heatMapType.Length1 == heatMapType.Length0
    requires moistureMapTypes.Length0 == heatMapType.Length0 && moistureMapTypes.Length1 == heatMapType.Length0
    requires forall x, z :: 0 <= x < heatMapType.Length0 && 0 <= z < heatMapType.Length1 ==>
               0 <= heatMapType[x, z].index < heatCount && 0 <= moistureMapTypes[x, z].index < moistureCount
    ensures Buildable(biomeRows, heatMapType, moistureMapTypes)
  {
    var size := heatMapType.Length0;
    forall x, z | 0 <= x < size && 0 <= z < size
      ensures CellResolves(biomeRows, heatMapType, moistureMapTypes, x, z)
    {
      CompleteTableResolves(biomeRows, heatCount, moistureCount, heatMapType[x, z], moistureMapTypes[x, z]);
    }
  }

  /** The lookup the loop body performs for cell (x, z): read both grids and then
      the table row of the moisture index and the column of the heat index. Any
      index out of range raises IndexOutOfRange. */
  method CellPixel(biomeRows: seq<BiomeRow>, heatMapType: array2<TerrainType>,
                   moistureMapTypes: array2<TerrainType>, x: int, z: int) returns (r: Result<Color>)
    requires 0 <= x < heatMapType.Length0 && 0 <= z
    ensures r.Success? <==> CellResolves(biomeRows, heatMapType, moistureMapTypes, x, z)
    ensures r.Success? ==> r.value == CellColor(biomeRows, heatMapType, moistureMapTypes, x, z)
    ensures r.Failure? ==> r.error == IndexOutOfRange
  {
    if z >= heatMapType.Length1 {
      return Failure(IndexOutOfRange);
    }
    var heatMapIndex := heatMapType[x, z].index;
    if x >= moistureMapTypes.Length0 || z >= moistureMapTypes.Length1 {
      return Failure(IndexOutOfRange);
    }
    var moistureMapIndex := moistureMapTypes[x, z].index;
    if !(0 <= moistureMapIndex < |biomeRows|) {
      return Failure(IndexOutOfRange);
    }
    var row := biomeRows[moistureMapIndex].biomes;
    if !(0 <= heatMapIndex < |row|) {
      return Failure(IndexOutOfRange);
    }
    var biome := row[heatMapIndex];
    return Success(biome.color);
  }

  /** The pixel stage of BuildTexture: walks the `size` x `size` grid row by row,
      where `size` is the heat grid's first dimension, and writes the colour of each
      cell's biome to slot `x * size + z` of a fresh `size * size` array. Lengths and
      slots are 32-bit `int`s: a length that wraps negative raises Overflow at the
      allocation. A slot never wraps, since it stays below the array's length; but a
      length that wraps to a non-negative L below `size * size` makes the write to
      slot L raise IndexOutOfRange, as does any index out of range in either grid or
      the table. The ghost `writes` records every slot written. */
  method BuildTexturePixels(biomeRows: seq<BiomeRow>, heatMapType: array2<TerrainType>, moistureMapTypes: array2<TerrainType>)
    returns (r: Result<array<Color>>, ghost writes: multiset<int>)
    ensures r.Success? <==> heatMapType.Length0 <= MaxSide && Buildable(biomeRows, heatMapType, moistureMapTypes)
    ensures r.Failure? ==> (r.error == Overflow <==> WrapInt(heatMapType.Length0 * heatMapType.Length0) < 0)
    ensures r.Success? ==> fresh(r.value) && r.value.Length == heatMapType.Length0 * heatMapType.Length0
    ensures r.Success? ==>
              forall x, z :: 0 <= x < heatMapType.Length0 && 0 <= z < heatMapType.Length0 ==>
                CellResolves(biomeRows, heatMapType, moistureMapTypes, x, z) &&
                r.value[PixelIndex(x, z, heatMapType.Length0)] == CellColor(biomeRows, heatMapType, moistureMapTypes, x, z)
    ensures r.Success? ==>
              forall i :: 0 <= i < r.value.Length ==>
                var cell := CellOf(i, heatMapType.Length0);
                CellResolves(biomeRows, heatMapType, moistureMapTypes, cell.0, cell.1) &&
                r.value[i] == CellColor(biomeRows, heatMapType, moistureMapTypes, cell.0, cell.1)
    ensures r.Success? ==>
              forall i :: writes[i] == if 0 <= i < heatMapType.Length0 * heatMapType.Length0 then 1 else 0
  {
    var size := heatMapType.Length0;
    SquareFitsInt(size);
    var length := WrapInt(size * size);
    if length < 0 {
      return Failure(Overflow), multiset{};
    }
    var pixels := new Color[length];
    writes := multiset{};
    ghost var written := 0;

    var x := 0;
    while x < size
      invariant 0 <= x <= size
      invariant written == x * size && written <= size * size && written <= pixels.Length
      invariant forall i :: 0 <= i < written ==>
                  CellResolves(biomeRows, heatMapType, moistureMapTypes, CellOf(i, size).0, CellOf(i, size).1) &&
                  pixels[i] == CellColor(biomeRows, heatMapType, moistureMapTypes, CellOf(i, size).0, CellOf(i, size).1)
      invariant forall i :: writes[i] == if 0 <= i < written then 1 else 0
    {
      RowStartBound(x, size);
      ghost var rowStart := x * size;
      var z := 0;
      while z < size
        invariant 0 <= z <= size
        invariant rowStart == x * size && rowStart + size <= size * size
        invariant written == rowStart + z && written <= pixels.Length
        invariant forall i :: 0 <= i < written ==>
                    CellResolves(biomeRows, heatMapType, moistureMapTypes, CellOf(i, size).0, CellOf(i, size).1) &&
                    pixels[i] == CellColor(biomeRows, heatMapType, moistureMapTypes, CellOf(i, size).0, CellOf(i, size).1)
        invariant forall i :: writes[i] == if 0 <= i < written then 1 else 0
      {
        var index := WrapInt(x * size + z);
        assert x * size + z == written;
        assert index == written;
        CellOfPixelIndex(x, z, size);
        var color := CellPixel(biomeRows, heatMapType, moistureMapTypes, x, z);
        if color.Failure? {
          return Failure(color.error), writes;
        }
        if !(0 <= index < pixels.Length) {
          return Failure(IndexOutOfRange), writes;
        }
        pixels[index] := color.value;
        writes := writes + multiset{index};
        written := written + 1;
        z := z + 1;
      }
      x := x + 1;
    }

    forall x, z | 0 <= x < size && 0 <= z < size
      ensures CellResolves(biomeRows, heatMapType, moistureMapTypes, x, z) &&
              pixels[PixelIndex(x, z, size)] == CellColor(biomeRows, heatMapType, moistureMapTypes, x, z)
    {
      CellOfPixelIndex(x, z, size);
    }
    r := Success(pixels);
  }
}
