/** The cell classification of Assets/Scripts/CellTile.cs. `None` is the
    sentinel the grid returns for a location outside the grid or a tile
    without a CellTile component. */
module Cells {

  datatype CellType = Grass | Dirt | Stone | Water | Path | None
}
