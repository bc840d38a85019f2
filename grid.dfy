/** The tile grid of Assets/Scripts/GridManager.cs: a height-by-width
    matrix of tile prefabs, indexed row first as matrix[y, x], filled with a
    fixed pattern and read back through a bounds-checked lookup.

    The prefabs themselves are Unity assets. A prefab is one of three
    abstract kinds, and whether it carries a CellTile component, and of which
    type, is the function `componentOf` fixed when the manager is made. */
module Grid {
  import opened Vectors
  import opened Cells

  datatype Prefab = GrassPrefab | DirtPrefab | WaterPrefab

  /** What GetComponent<CellTile>() finds on a prefab. */
  datatype Component = NoCellTile | HasCellTile(cellType: CellType)

  /** The cell type a lookup reports for a tile: its CellTile's type, or
      `None` when the tile has no CellTile. */
  function TypeOf(c: Component): CellType
  {
    match c
    case NoCellTile => None
    case HasCellTile(t) => t
  }

  /** The prefab GenerateMatrix writes at column x of row y, branch for
      branch as lines 31-40 choose it. */
  function Generated(x: int, y: int): Prefab
  {
    if y % 2 == 0 then
      if y == 10 then WaterPrefab
      else if x % 2 == 0 then GrassPrefab
      else DirtPrefab
    else
      if x % 2 == 0 then DirtPrefab
      else GrassPrefab
  }

  /** The grid after Start: the generated pattern with cell [20, 15]
      overwritten by water (line 21). */
  function Layout(x: int, y: int): Prefab
  {
    if x == 15 && y == 20 then WaterPrefab else Generated(x, y)
  }

  predicate InGrid(width: int, height: int, p: Pos)
  {
    0 <= p.x < width && 0 <= p.y < height
  }

  /** What the lookup reports on a grid holding `Layout`. */
  function CellTypeAt(width: int, height: int, componentOf: Prefab -> Component, p: Pos): CellType
  {
    if InGrid(width, height, p) then TypeOf(componentOf(Layout(p.x, p.y))) else None
  }

  /** The generated pattern in the terms of a checkerboard: row 10 is all
      water, and every other row is grass where x + y is even and dirt where
      it is odd. */
  lemma {:induction false} GeneratedPattern(x: nat, y: nat)
    ensures y == 10 ==> Generated(x, y) == WaterPrefab
    ensures y != 10 ==> (Generated(x, y) == GrassPrefab <==> (x + y) % 2 == 0)
    ensures y != 10 ==> (Generated(x, y) == DirtPrefab <==> (x + y) % 2 == 1)
  {
    ParityOfSum(x, y);
  }

  lemma ParityOfSum(x: nat, y: nat)
    ensures (x + y) % 2 == 0 <==> x % 2 == y % 2
  {
    var qx, qy := x / 2, y / 2;
    assert x == 2 * qx + x % 2;
    assert y == 2 * qy + y % 2;
    assert x + y == 2 * (qx + qy) + x % 2 + y % 2;
  }

  /** The override at line 21 is the only place Layout departs from the
      generated pattern: at (15, 20) the pattern has dirt and Layout water. */
  lemma {:induction false} LayoutDiffersOnlyAtOverride(x: nat, y: nat)
    ensures Layout(x, y) != Generated(x, y) <==> x == 15 && y == 20
    ensures Generated(15, 20) == DirtPrefab && Layout(15, 20) == WaterPrefab
  {
    GeneratedPattern(15, 20);
  }

  /** When every prefab carries a CellTile that is not `None`, the lookup
      reports `None` exactly outside the grid. */
  lemma PassableExactlyInGrid(width: int, height: int, componentOf: Prefab -> Component, p: Pos)
    requires forall f :: componentOf(f).HasCellTile? && componentOf(f).cellType != None
    ensures CellTypeAt(width, height, componentOf, p) != None <==> InGrid(width, height, p)
  {
    if InGrid(width, height, p) {
      var f := Layout(p.x, p.y);
      assert componentOf(f).HasCellTile? && componentOf(f).cellType != None;
    }
  }

  class GridManager {
    /** Serialized sizes (lines 6-7); 128 unless the scene sets them. */
    const width: nat
    const height: nat
    /** GetComponent<CellTile>() on each prefab (lines 9-11, 71). */
    const componentOf: Prefab -> Component
    /** Null until Start runs (line 13). */
    var matrix: array2?<Prefab>

    /** The matrix exists and has the shape Start gives it (line 18). */
    predicate Valid()
      reads this
    {
      matrix != null && matrix.Length0 == height && matrix.Length1 == width
    }

    constructor(width: nat, height: nat, componentOf: Prefab -> Component)
      ensures this.width == width && this.height == height
      ensures this.componentOf == componentOf
      ensures matrix == null
    {
      this.width := width;
      this.height := height;
      this.componentOf := componentOf;
      matrix := null;
    }

    /** Start (lines 16-23): allocate, generate, then overwrite [20, 15].
        When the grid has no row 20 or no column 15 that write throws
        IndexOutOfRangeException; `ok` is false then and the matrix holds
        the generated pattern only. */
    method Start() returns (ok: bool)
      modifies this
      ensures Valid() && fresh(matrix)
      ensures ok == (height > 20 && width > 15)
      ensures forall y, x :: 0 <= y < height && 0 <= x < width ==>
        matrix[y, x] == (if ok then Layout(x, y) else Generated(x, y))
      ensures ok ==> forall p :: GetCellTypeInLocation(p) == CellTypeAt(width, height, componentOf, p)
    {
      matrix := new Prefab[height, width];
      GenerateMatrix();
      if 20 < height && 15 < width {
        matrix[20, 15] := WaterPrefab;
        ok := true;
      } else {
        ok := false;
      }
    }

    /** GenerateMatrix (lines 25-44): every cell of the height-by-width
        matrix gets the generated pattern. */
    method GenerateMatrix()
      requires Valid()
      modifies matrix
      ensures forall y, x :: 0 <= y < height && 0 <= x < width ==> matrix[y, x] == Generated(x, y)
    {
      for y := 0 to height
        invariant forall j, i :: 0 <= j < y && 0 <= i < width ==> matrix[j, i] == Generated(i, j)
      {
        for x := 0 to width
          invariant forall j, i :: 0 <= j < y && 0 <= i < width ==> matrix[j, i] == Generated(i, j)
          invariant forall i :: 0 <= i < x ==> matrix[y, i] == Generated(i, y)
        {
          if y % 2 == 0 {
            if y == 10 {
              matrix[y, x] := WaterPrefab;
            } else if x % 2 == 0 {
              matrix[y, x] := GrassPrefab;
            } else {
              matrix[y, x] := DirtPrefab;
            }
          } else {
            if x % 2 == 0 {
              matrix[y, x] := DirtPrefab;
            } else {
              matrix[y, x] := GrassPrefab;
            }
          }
        }
      }
    }

    /** GetCellTypeInLocation (lines 67-76): `None` outside the grid;
        inside, the type of the CellTile on matrix[y, x], or `None` when the
        tile has none. */
    function GetCellTypeInLocation(location: Pos): (c: CellType)
      reads this, matrix
      requires Valid()
      ensures !InGrid(width, height, location) ==> c == None
      ensures InGrid(width, height, location) ==>
        c == TypeOf(componentOf(matrix[location.y, location.x]))
    {
      if 0 <= location.x < width && 0 <= location.y < height then
        TypeOf(componentOf(matrix[location.y, location.x]))
      else
        None
    }
  }
}
