# Salvaging overlay

A model of the per-frame drawing logic of the salvaging overlay, a RuneLite
plugin overlay. Every frame it does two things:

- It builds a coverage map that counts, for each world tile, how many
  shipwrecks cover it. A shipwreck counts when it is enabled, not depleted,
  and range display is on. It covers the 16 x 16 tiles of its salvage range
  square.
- It then walks the shipwrecks in list order. A disabled shipwreck draws
  nothing. For an enabled one:
  - the highlight of its 2 x 2 footprint is drawn in the depleted colour if
    the shipwreck is depleted and depleted highlighting is on. It is drawn
    in the active colour if the shipwreck is active and active highlighting
    is on. It is drawn only when the footprint projects to the screen;
  - for an active shipwreck with range display on, its salvage range is
    drawn tile by tile. A tile that does not project to the screen is
    skipped. Every other tile is filled, and then only its sides on this
    square's boundary are outlined. A tile is drawn in the overlap colours
    when overlap display is on and more than one counted range covers it.

Drawing is modelled as a trace of draw events (`Draws.Draw`) that each
render operation returns, in the order the overlay issues them. Each event
carries its own colour and stroke width. The camera's projection of a tile,
and of a shipwreck's footprint, is a function parameter that may fail
(`Tile -> Option<Quad>`).

Files and modules:

- `tiles.dfy` (`Tiles`): the range square, the boundary flags, and the
  column-by-column order in which a square is walked.
- `colors.dfy` (`Colors`): RGBA colours.
- `draws.dfy` (`Draws`): projected quads, the corner pairs of the four sides,
  the draw events, and the per-tile view of a trace.
- `coverage.dfy` (`Coverage`): the shipwreck record, the counting
  specification, and the loop that builds the map.
- `overlay.dfy` (`Overlay`): the configuration, the four render methods,
  the frame, and the lemmas about what a frame draws.

The operations of the source are methods proved against specification
functions. Three of them run loops: the coverage loop, the salvage range
renderer and the frame. The tile renderer and the highlight renderer are
guarded sequences of draws.

| method | specified by |
|---|---|
| `Coverage.ComputeCoverage` | `CoverCount` |
| `Overlay.RenderShipwreckHighlight` | `HighlightDraws` |
| `Overlay.RenderTileWithSelectiveBorder` | `TileDraws` |
| `Overlay.RenderSalvageRange` | `RangeDraws` |
| `Overlay.Render` | `FrameDraws` |

The lemmas describe those functions. Overlapping ranges each draw their own
boundary. A tile strictly inside one square therefore still gets a border
side when it lies on the boundary of another square that covers it.
`Overlay.PerShipwreckBorderQuirk` states this behaviour as it is.

## Model

| member | source | states |
|---|---|---|
| `Tiles.RangeBounds` | src/main/java/com/salvaging/SalvagingOverlay.java:142-146 | The square of a shipwreck at (x0, y0) has these bounds: x from x0-7 to x0+8, y from y0-7 to y0+8, and the shipwreck's plane. It is 16 tiles on each side. A tile is in it exactly when it is on that plane and at most 7 tiles from the 2 x 2 footprint along each axis. |
| `Tiles.EdgeFlags` | src/main/java/com/salvaging/SalvagingOverlay.java:176-179 | Computes the four boundary flags of a tile against one square: west when x is minX, east when x is maxX, south when y is minY, north when y is maxY. Within the square, some flag is set exactly when the tile is not interior. |
| `Tiles.EdgeFlagsInRange` | src/main/java/com/salvaging/SalvagingOverlay.java:176-179 | In a range square no tile is both the west and the east boundary, or both the south and the north. Corner tiles carry exactly two flags, interior tiles none, and no tile carries more than two. |
| `Tiles.RangeTilesExactlyOnce` | src/main/java/com/salvaging/SalvagingOverlay.java:166-168 | Walking a range square column by column visits 256 tiles. No tile is visited twice, and the visited tiles are exactly those of the square. |
| `Tiles.ScenarioSingleShipwreck` | src/main/java/com/salvaging/SalvagingOverlay.java:142-145 | A shipwreck at (100, 100, 0) has the square [93, 108] x [93, 108]. Its corner (93, 93) is a west and a south boundary tile only. |
| `Coverage.Counted` | src/main/java/com/salvaging/SalvagingOverlay.java:49-63 | Defines which shipwrecks the coverage loop counts: those that are enabled and not depleted, and only when range display is on. |
| `Coverage.CoverCount` | src/main/java/com/salvaging/SalvagingOverlay.java:47-79 | Defines the number of counted shipwrecks in the list whose square contains a tile. The number is at most the length of the list. |
| `Coverage.ComputeCoverage` | src/main/java/com/salvaging/SalvagingOverlay.java:45-80 | The built map has an entry for a tile exactly when some counted shipwreck covers the tile. Each entry is the number of counted shipwrecks whose square contains the tile. With range display off, the map is empty. |
| `Coverage.CoverageMap` | src/main/java/com/salvaging/SalvagingOverlay.java:45-80 | The map that the loop must build: its keys are the covered tiles, and its values are their cover counts. |
| `Coverage.CoverCountIsCardinality` | src/main/java/com/salvaging/SalvagingOverlay.java:47-79 | A tile's count is the number of list positions whose shipwreck covers it. Two shipwrecks at the same location count twice. |
| `Coverage.NoRangeNoCoverage` | src/main/java/com/salvaging/SalvagingOverlay.java:60-63 | With range display off, no tile is covered, whatever the state of each shipwreck. |
| `Coverage.CoveredIffCounted` | src/main/java/com/salvaging/SalvagingOverlay.java:72-79 | A tile lies in the union of the counted squares exactly when its count is positive. |
| `Coverage.ScenarioTwoShipwrecks` | src/main/java/com/salvaging/SalvagingOverlay.java:66-79 | For shipwrecks at (100, 100, 0) and (110, 100, 0), the counts are as follows. Tiles with x in [103, 108] and y in [93, 108] count 2. The rest of the union [93, 118] x [93, 108] counts 1. Every other tile counts 0. |
| `Colors.WithAlpha` | src/main/java/com/salvaging/SalvagingOverlay.java:148-153 | The new colour keeps the red, green and blue of the old one and takes the given alpha. Passing the colour's own alpha gives back the same colour. |
| `Draws.SideCorners` | src/main/java/com/salvaging/SalvagingOverlay.java:216-235 | Each side is drawn from one corner to the next corner in winding order: south (0, 1), east (1, 2), north (2, 3), west (3, 0). |
| `Overlay.IsOverlap` | src/main/java/com/salvaging/SalvagingOverlay.java:173 | A tile is an overlap tile exactly when overlap display is on and the map holds an entry of at least 2 for it. A missing entry counts as 0. |
| `Overlay.OverlapIffMultiplyCovered` | src/main/java/com/salvaging/SalvagingOverlay.java:173 | Over a frame's coverage map, a tile is an overlap tile exactly when overlap display is on and more than one counted range covers it. |
| `Overlay.Paint` | src/main/java/com/salvaging/SalvagingOverlay.java:148-183 | An overlap tile gets the overlap fill, which keeps its own alpha, and the overlap border. Any other tile gets two things. Its fill is the base fill's red, green and blue at the fill opacity. Its border is the base border colour. |
| `Overlay.TileDrawsShape` | src/main/java/com/salvaging/SalvagingOverlay.java:207-235 | A projectable tile is drawn as its fill first. Then one segment is drawn per flagged side, and there are no other segments. Each segment goes from the side's first corner to its second, in the border colour and width. The segments run in the order south, east, north, west. |
| `Overlay.TileDrawsEvents` | src/main/java/com/salvaging/SalvagingOverlay.java:195-235 | A tile that does not project draws nothing. Every event draws that tile. Fills use the fill colour. Segments use the border colour and width, and appear only on flagged sides. |
| `Overlay.TileFillCount` | src/main/java/com/salvaging/SalvagingOverlay.java:207-209 | A projectable tile is filled exactly once. A tile that does not project is not filled. |
| `Overlay.RenderTileWithSelectiveBorder` | src/main/java/com/salvaging/SalvagingOverlay.java:191-236 | Returns exactly the events that `TileDraws` specifies for the four flags passed in. |
| `Overlay.HighlightDraws` | src/main/java/com/salvaging/SalvagingOverlay.java:121-138 | A footprint that does not project has no highlight. Otherwise the highlight is a fill and then an outline of the projected footprint. The fill uses the colour's red, green and blue at alpha 50. The outline uses the colour itself at width 2. Neither is a range event. |
| `Overlay.RenderShipwreckHighlight` | src/main/java/com/salvaging/SalvagingOverlay.java:121-138 | Returns exactly the highlight events. |
| `Overlay.PlannedTile` | src/main/java/com/salvaging/SalvagingOverlay.java:170-186 | Defines how one tile of a square is drawn: colours from its overlap status, flags from this square's bounds. A tile that does not project draws nothing. Otherwise the first event is the fill in the colour that the tile's overlap status selects. |
| `Overlay.RangeDrawsEvents` | src/main/java/com/salvaging/SalvagingOverlay.java:170-186 | Every event of a salvage range draws a tile of the range's own square. It is coloured by that tile's coverage. A segment appears only on a side that lies on that square's boundary. |
| `Overlay.RangeTileEvents` | src/main/java/com/salvaging/SalvagingOverlay.java:166-188 | Each tile of the square is drawn once, with its own colours and this square's flags. No tile outside the square is drawn. |
| `Overlay.WalkDrawsVisited` | src/main/java/com/salvaging/SalvagingOverlay.java:166-168 | At every point of the column-by-column walk, the events so far are exactly those of the tiles visited so far, in visiting order. |
| `Overlay.RenderSalvageRange` | src/main/java/com/salvaging/SalvagingOverlay.java:140-189 | Returns exactly the events `RangeDraws` specifies: every tile of the square in walk order, each drawn as planned for the square. |
| `Overlay.HighlightColor` | src/main/java/com/salvaging/SalvagingOverlay.java:94-108 | Defines the highlight colour for the shipwreck's state: the depleted colour for a depleted shipwreck, otherwise the active colour. |
| `Overlay.HighlightWanted` | src/main/java/com/salvaging/SalvagingOverlay.java:94-108 | Defines which option switches the highlight on for the shipwreck's state: depleted highlighting for a depleted shipwreck, otherwise active highlighting. |
| `Overlay.ShipwreckDraws` | src/main/java/com/salvaging/SalvagingOverlay.java:85-115 | Defines what one shipwreck draws. A disabled shipwreck draws nothing. An enabled shipwreck draws exactly two parts, in this order. First, its highlight, drawn once from the footprint's projection in the colour for its state, and only when that state's highlight option is on. Then, if it is counted (not depleted, and range display on), its salvage range. |
| `Overlay.FrameDraws` | src/main/java/com/salvaging/SalvagingOverlay.java:83-116 | Defines the events of one frame: each shipwreck's events, in list order. Its properties are stated by `FrameDrawsEvents` and `FrameTileEvents`. |
| `Overlay.ShipwreckDrawsEvents` | src/main/java/com/salvaging/SalvagingOverlay.java:83-116 | A disabled shipwreck draws nothing. Range events come only from a shipwreck that is enabled, not depleted and range-displayed. They lie in its square and are planned for it. Every other event is the wanted highlight, in the colour for the shipwreck's state. A wanted highlight that projects comes first. |
| `Overlay.ShipwreckTileEvents` | src/main/java/com/salvaging/SalvagingOverlay.java:110-114 | A shipwreck's events on tile t depend on whether it covers t. If it does, they are t as drawn for the shipwreck's own square. Otherwise there are none. |
| `Overlay.FrameNext` | src/main/java/com/salvaging/SalvagingOverlay.java:83-116 | Drawing shipwreck i appends exactly that shipwreck's events to the frame's trace. |
| `Overlay.FrameDrawsEvents` | src/main/java/com/salvaging/SalvagingOverlay.java:83-116 | With range display off, a frame has no range events. Every range event is coloured by its tile's coverage. Every highlight fill has alpha 50, and every highlight outline has width 2. |
| `Overlay.FrameTileEvents` | src/main/java/com/salvaging/SalvagingOverlay.java:83-116 | A tile's events in a frame come from each counted shipwreck whose square contains the tile, in list order. Each contribution is the tile as drawn for that shipwreck's own square. |
| `Overlay.CoveringFills` | src/main/java/com/salvaging/SalvagingOverlay.java:111-114 | A projectable tile is filled once per counted square that contains it. |
| `Overlay.Render` | src/main/java/com/salvaging/SalvagingOverlay.java:42-119 | The frame's events are `FrameDraws` over the coverage map that the first loop must build. |
| `Overlay.FrameTileSummary` | src/main/java/com/salvaging/SalvagingOverlay.java:45-116 | In a rendered frame, a projectable tile is filled exactly as often as it is covered. It is drawn with the borders of each covering square in turn. It is in the overlap colours exactly when overlap display is on and more than one square covers it. |
| `Overlay.InteriorTileDraws` | src/main/java/com/salvaging/SalvagingOverlay.java:216-235 | A tile with no flag is its fill alone. |
| `Overlay.WestTileDraws` | src/main/java/com/salvaging/SalvagingOverlay.java:231-235 | A tile flagged only west is its fill, then the segment from the north-west corner to the south-west corner. |
| `Overlay.TwoShipwrecksCovering` | src/main/java/com/salvaging/SalvagingOverlay.java:110-114 | A tile in both squares of two active shipwrecks is drawn twice: once as planned for the first square, then once for the second. |
| `Overlay.TwoShipwrecksOverlap` | src/main/java/com/salvaging/SalvagingOverlay.java:173 | Take two active shipwrecks ten tiles apart with overlap display on. The tile three east of the first one is an overlap tile. |
| `Overlay.TwoShipwrecksTile` | src/main/java/com/salvaging/SalvagingOverlay.java:176-186 | That overlap tile is a bare overlap fill in the first square. In the second square it is an overlap fill plus a west side in the overlap border. |
| `Overlay.TwoShipwrecksEvents` | src/main/java/com/salvaging/SalvagingOverlay.java:176-179 | That tile's events over both shipwrecks are two overlap fills, then the second square's west side. |
| `Overlay.PerShipwreckBorderQuirk` | src/main/java/com/salvaging/SalvagingOverlay.java:176-179 | In that frame, the tile lies strictly inside the first shipwreck's square. Yet the frame draws it as two overlap fills plus a west border, which comes from the second square. Boundary flags are per square, not per union. |

## Left out

- AWT drawing (graphics state, strokes, polygon fill and line drawing): each draw is an event in the returned trace, carrying its colour and stroke width.
- Camera projection (the tile's local point, its canvas polygon, and the shipwreck's canvas area polygon): these are the parameters `proj` and `area`. A missing local point and a missing polygon both become `None`. The highlight looks up the shipwreck's own local location, which is modelled as `area` applied to its world location.
- Plugin and configuration lookup, and dependency injection: the shipwreck list is an input sequence and the configuration a `Config` record, each read once per frame. Each shipwreck's enabled and depleted answers are fields of `Coverage.Shipwreck`, and so is its world location. The source asks for all of these afresh in each of its two loops: it fetches the list of shipwrecks twice (lines 47 and 83), each shipwreck's world location twice (65 and 90), its enabled and depleted answers twice (49, 55, 85 and 91), and the range display option twice (60 and 111). The model assumes every one of these answers stays the same within a frame.
- Java `int` overflow on extreme coordinates: coordinates are unbounded integers.
- The colour constructor's range validation is not modelled as an error path. Channels have the type `Colors.Channel` (0..255), and stroke widths are `nat`, so the exceptions for out-of-range values cannot arise.
- The overlay's position and layer settings in the constructor, and the value that `render` returns (always null): plumbing with no logic.
- The coverage map's hash map is a Dafny `map<Tile, int>`. A lookup with a default of 0 is `Coverage.Get`.
