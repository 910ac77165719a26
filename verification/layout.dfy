/** The tile grid (`tilegrid.json`), already parsed: tiles name their type
and segment, segments give their frame base address, first word, frame count
and segment type (tools/fasm2frame.py).
 */
module Layout {
  import opened Errors

  datatype Tile = Tile(tileType: string, segment: string)

  /** `baseaddr` is the pair (frame base address, first word); the address
      arrives here already converted from its textual literal. */
  datatype Segment = Segment(baseAddr: int, wordBase: int, frames: int, segType: string)

  datatype Grid = Grid(tiles: map<string, Tile>, segments: map<string, Segment>)

  /** `grid['tiles'][tile]` then `grid['segments'][seg]`: either lookup can
      fail, and the error names the missing key. */
  function LookupTile(grid: Grid, name: string): (r: Result<(Tile, Segment)>)
    ensures r.Ok? <==> name in grid.tiles && grid.tiles[name].segment in grid.segments
    ensures r.Ok? ==> r.value.0 == grid.tiles[name] && r.value.1 == grid.segments[r.value.0.segment]
    ensures name !in grid.tiles ==> r == Err(UnknownTile(name))
    ensures name in grid.tiles && !r.Ok? ==> r == Err(UnknownSegment(grid.tiles[name].segment))
  {
    if name !in grid.tiles then Err(UnknownTile(name))
    else
      var tile := grid.tiles[name];
      if tile.segment !in grid.segments then Err(UnknownSegment(tile.segment))
      else Ok((tile, grid.segments[tile.segment]))
  }
}
