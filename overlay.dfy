/** One frame of the salvaging overlay: highlights of the shipwrecks and
    the tiles of their salvage ranges, coloured by coverage. Every render
    operation returns the draw events it issues, in order. */
module Overlay {
  import opened Tiles
  import opened Colors
  import opened Draws
  import opened Coverage

  /** The plugin's configuration as read during one frame. */
  datatype Config = Config(
    showSalvageRange: bool,
    showOverlap: bool,
    highlightActiveShipwrecks: bool,
    highlightDepletedShipwrecks: bool,
    activeShipwreckColor: Color,
    depletedShipwreckColor: Color,
    tileFillColor: Color,
    fillOpacity: Channel,
    tileBorderColor: Color,
    tileBorderWidth: nat,
    overlapFillColor: Color,
    overlapBorderColor: Color)

  /** Fill and border colour of one range tile. */
  datatype TilePaint = TilePaint(fill: Color, border: Color)

  /** A tile is drawn as overlap when overlap display is on and more than
      one counted range covers it. */
  predicate IsOverlap(cfg: Config, counts: map<Tile, int>, t: Tile): (r: bool)
    ensures r <==> cfg.showOverlap && t in counts && counts[t] >= 2
  {
    cfg.showOverlap && Get(counts, t) > 1
  }

  /** Over the coverage map of a frame, a tile is an overlap tile exactly
      when overlap display is on and more than one counted range covers it. */
  lemma OverlapIffMultiplyCovered(shipwrecks: seq<Shipwreck>, cfg: Config, t: Tile)
    ensures IsOverlap(cfg, CoverageMap(shipwrecks, cfg.showSalvageRange), t)
            <==> cfg.showOverlap && CoverCount(shipwrecks, cfg.showSalvageRange, t) > 1
  {
  }

  /** Overlap tiles take the configured overlap colours unchanged (the
      overlap fill keeps its own alpha); other tiles take the base fill's
      red, green and blue with the separately configured fill opacity, and
      the base border colour. */
  function Paint(cfg: Config, overlap: bool): (p: TilePaint)
    ensures overlap ==> p == TilePaint(cfg.overlapFillColor, cfg.overlapBorderColor)
    ensures !overlap ==>
      p.border == cfg.tileBorderColor && p.fill.alpha == cfg.fillOpacity
      && p.fill.red == cfg.tileFillColor.red && p.fill.green == cfg.tileFillColor.green
      && p.fill.blue == cfg.tileFillColor.blue
  {
    var fillColor := WithAlpha(cfg.tileFillColor, cfg.fillOpacity);
    var overlapFillColor := WithAlpha(cfg.overlapFillColor, cfg.overlapFillColor.alpha);
    if overlap then TilePaint(overlapFillColor, cfg.overlapBorderColor)
    else TilePaint(fillColor, cfg.tileBorderColor)
  }

  // ---------------------------------------------------------------------
  // One tile: its fill, then the flagged sides.

  function EdgeDraw(t: Tile, q: Quad, s: Side, on: bool, border: Color, width: nat): seq<Draw>
  {
    if on then [Segment(t, s, Corner(q, SideCorners(s).0), Corner(q, SideCorners(s).1), border, width)]
    else []
  }

  /** A segment of tile t's quad q that lies on a flagged side, drawn from
      the side's first corner to its second, in the border colour and width. */
  predicate FlaggedSegment(d: Draw, t: Tile, q: Quad, border: Color, width: nat, e: Edges)
  {
    d.Segment? && d == Segment(t, d.side, Corner(q, SideCorners(d.side).0), Corner(q, SideCorners(d.side).1), border, width)
    && Selected(e, d.side)
  }

  /** The events that draw tile t: its fill in the fill colour and segments
      of flagged sides in the border colour and width. */
  function TileDraws(t: Tile, fill: Color, border: Color, width: nat, e: Edges, proj: Tile -> Option<Quad>): seq<Draw>
  {
    match proj(t)
    case None => []
    case Some(q) => QuadDraws(t, q, fill, border, width, e)
  }

  /** The events of tile t once projected to q. */
  function QuadDraws(t: Tile, q: Quad, fill: Color, border: Color, width: nat, e: Edges): seq<Draw>
  {
    [FillTile(t, q, fill)]
    + EdgeDraw(t, q, South, e.south, border, width)
    + EdgeDraw(t, q, East, e.east, border, width)
    + EdgeDraw(t, q, North, e.north, border, width)
    + EdgeDraw(t, q, West, e.west, border, width)
  }

  /** A projectable tile is drawn as its fill first, then exactly one segment
      per flagged side, each from the side's first corner to its second, in
      the order south, east, north, west. */
  lemma TileDrawsShape(t: Tile, fill: Color, border: Color, width: nat, e: Edges, proj: Tile -> Option<Quad>)
    requires proj(t).Some?
    ensures var r := TileDraws(t, fill, border, width, e, proj);
      |r| == 1 + FlagCount(e) && r[0] == FillTile(t, proj(t).value, fill)
      && (forall k :: 1 <= k < |r| ==> FlaggedSegment(r[k], t, proj(t).value, border, width, e))
      && (forall k, j :: 1 <= k < j < |r| ==>
            r[k].Segment? && r[j].Segment? && SideCorners(r[k].side).0 < SideCorners(r[j].side).0)
  {
  }

  /** A tile that does not project draws nothing; every event of a tile is
      an event of that tile, fills in the fill colour, segments in the
      border colour and width and only on flagged sides. */
  lemma TileDrawsEvents(t: Tile, fill: Color, border: Color, width: nat, e: Edges, proj: Tile -> Option<Quad>)
    ensures var r := TileDraws(t, fill, border, width, e, proj);
      (proj(t).None? ==> r == [])
      && forall d :: d in r ==>
           IsTileEventAt(d, t) && (d.FillTile? ==> d.color == fill)
           && (d.Segment? ==> d.color == border && d.width == width && Selected(e, d.side))
  {
  }

  /** A projectable tile is filled exactly once, a tile that does not
      project not at all. */
  lemma TileFillCount(t: Tile, fill: Color, border: Color, width: nat, e: Edges, proj: Tile -> Option<Quad>)
    ensures FillCount(TileDraws(t, fill, border, width, e, proj)) == if proj(t).Some? then 1 else 0
  {
    var r := TileDraws(t, fill, border, width, e, proj);
    if proj(t).Some? {
      TileDrawsShape(t, fill, border, width, e, proj);
      FillCountAppend([r[0]], r[1..]);
      assert r == [r[0]] + r[1..];
      FillCountNone(r[1..]);
      assert [r[0]][..0] == [];
    }
  }

  /** Draws one range tile: the fill, then each side whose flag is set. */
  method RenderTileWithSelectiveBorder(t: Tile, fill: Color, border: Color, width: nat,
                                       drawWest: bool, drawEast: bool, drawSouth: bool, drawNorth: bool,
                                       proj: Tile -> Option<Quad>) returns (out: seq<Draw>)
    ensures out == TileDraws(t, fill, border, width, Edges(drawWest, drawEast, drawSouth, drawNorth), proj)
  {
    var tilePoly := proj(t);
    if tilePoly.None? {
      return [];
    }
    var q := tilePoly.value;
    out := [FillTile(t, q, fill)];
    if drawSouth {
      out := out + [Segment(t, South, Corner(q, 0), Corner(q, 1), border, width)];
    }
    if drawEast {
      out := out + [Segment(t, East, Corner(q, 1), Corner(q, 2), border, width)];
    }
    if drawNorth {
      out := out + [Segment(t, North, Corner(q, 2), Corner(q, 3), border, width)];
    }
    if drawWest {
      out := out + [Segment(t, West, Corner(q, 3), Corner(q, 0), border, width)];
    }
  }

  // ---------------------------------------------------------------------
  // The shipwreck highlight.

  /** A highlight event of the shipwreck at loc in colour c: the fill keeps
      c's red, green and blue at alpha 50, the outline is c itself at width 2. */
  predicate HighlightOf(d: Draw, loc: Tile, c: Color)
  {
    (d.FillArea? && d.at == loc && d.color.alpha == HighlightAlpha
     && d.color.red == c.red && d.color.green == c.green && d.color.blue == c.blue)
    || (d.OutlineArea? && d.at == loc && d.color == c && d.width == HighlightStroke)
  }

  /** The highlight of the shipwreck at loc: nothing when its footprint does
      not project, otherwise a fill and then an outline of the projected
      footprint. */
  function HighlightDraws(loc: Tile, c: Color, area: Tile -> Option<Quad>): (r: seq<Draw>)
    ensures area(loc).None? ==> r == []
    ensures area(loc).Some? ==>
      |r| == 2 && r[0].FillArea? && r[1].OutlineArea?
      && r[0].quad == area(loc).value && r[1].quad == area(loc).value
    ensures forall d :: d in r ==> !IsRangeEvent(d) && HighlightOf(d, loc, c)
  {
    match area(loc)
    case None => []
    case Some(q) => [FillArea(loc, q, WithAlpha(c, HighlightAlpha)), OutlineArea(loc, q, c, HighlightStroke)]
  }

  method RenderShipwreckHighlight(loc: Tile, c: Color, area: Tile -> Option<Quad>) returns (out: seq<Draw>)
    ensures out == HighlightDraws(loc, c, area)
  {
    out := [];
    var polygon := area(loc);
    if polygon.Some? {
      out := out + [FillArea(loc, polygon.value, Color(c.red, c.green, c.blue, 50))];
      out := out + [OutlineArea(loc, polygon.value, c, 2)];
    }
  }

  // ---------------------------------------------------------------------
  // The salvage range of one shipwreck.

  /** The events of tile t when it is drawn as part of the square b. */
  function PlannedTile(t: Tile, b: Bounds, cfg: Config, counts: map<Tile, int>, proj: Tile -> Option<Quad>): (r: seq<Draw>)
    ensures proj(t).None? ==> r == []
    ensures proj(t).Some? ==>
      |r| >= 1 && r[0] == FillTile(t, proj(t).value, Paint(cfg, IsOverlap(cfg, counts, t)).fill)
  {
    var p := Paint(cfg, IsOverlap(cfg, counts, t));
    TileDraws(t, p.fill, p.border, cfg.tileBorderWidth, EdgeFlags(b, t), proj)
  }

  /** A range event coloured by its tile's coverage. */
  predicate Painted(d: Draw, cfg: Config, counts: map<Tile, int>)
    requires IsRangeEvent(d)
  {
    var p := Paint(cfg, IsOverlap(cfg, counts, d.tile));
    (d.FillTile? ==> d.color == p.fill)
    && (d.Segment? ==> d.color == p.border && d.width == cfg.tileBorderWidth)
  }

  /** A range event of square b: coloured by coverage, and a segment only on
      a side that lies on b's own boundary. */
  predicate PlannedEvent(d: Draw, b: Bounds, cfg: Config, counts: map<Tile, int>)
  {
    IsRangeEvent(d) && Painted(d, cfg, counts) && (d.Segment? ==> Selected(EdgeFlags(b, d.tile), d.side))
  }

  /** The events of the tiles ts drawn, in order, as part of the square b. */
  function DrawsFor(ts: seq<Tile>, b: Bounds, cfg: Config, counts: map<Tile, int>, proj: Tile -> Option<Quad>): seq<Draw>
  {
    if ts == [] then []
    else DrawsFor(ts[..|ts| - 1], b, cfg, counts, proj) + PlannedTile(ts[|ts| - 1], b, cfg, counts, proj)
  }

  lemma {:induction false} DrawsForPlanned(ts: seq<Tile>, b: Bounds, cfg: Config, counts: map<Tile, int>, proj: Tile -> Option<Quad>)
    ensures forall d :: d in DrawsFor(ts, b, cfg, counts, proj) ==> PlannedEvent(d, b, cfg, counts) && d.tile in ts
  {
    if ts != [] {
      var t := ts[|ts| - 1];
      DrawsForPlanned(ts[..|ts| - 1], b, cfg, counts, proj);
      var p := Paint(cfg, IsOverlap(cfg, counts, t));
      TileDrawsEvents(t, p.fill, p.border, cfg.tileBorderWidth, EdgeFlags(b, t), proj);
    }
  }

  lemma DrawsForSnoc(ts: seq<Tile>, t: Tile, b: Bounds, cfg: Config, counts: map<Tile, int>, proj: Tile -> Option<Quad>)
    ensures DrawsFor(ts + [t], b, cfg, counts, proj) == DrawsFor(ts, b, cfg, counts, proj) + PlannedTile(t, b, cfg, counts, proj)
  {
    assert (ts + [t])[..|ts|] == ts;
  }

  /** The draws of tile u as part of square b are all events of u. */
  lemma PlannedTileEvents(u: Tile, b: Bounds, cfg: Config, counts: map<Tile, int>, proj: Tile -> Option<Quad>, t: Tile)
    ensures EventsOf(PlannedTile(u, b, cfg, counts, proj), t) == if u == t then PlannedTile(u, b, cfg, counts, proj) else []
  {
    var p := Paint(cfg, IsOverlap(cfg, counts, u));
    TileDrawsEvents(u, p.fill, p.border, cfg.tileBorderWidth, EdgeFlags(b, u), proj);
    EventsOfUniform(PlannedTile(u, b, cfg, counts, proj), t);
  }

  lemma {:induction false} DrawsForEvents(ts: seq<Tile>, b: Bounds, cfg: Config, counts: map<Tile, int>,
                                          proj: Tile -> Option<Quad>, t: Tile)
    requires Distinct(ts)
    ensures EventsOf(DrawsFor(ts, b, cfg, counts, proj), t) == if t in ts then PlannedTile(t, b, cfg, counts, proj) else []
  {
    if ts != [] {
      var init, last := ts[..|ts| - 1], ts[|ts| - 1];
      DistinctInit(ts);
      DrawsForEvents(init, b, cfg, counts, proj, t);
      EventsOfAppend(DrawsFor(init, b, cfg, counts, proj), PlannedTile(last, b, cfg, counts, proj), t);
      PlannedTileEvents(last, b, cfg, counts, proj, t);
    }
  }

  /** The events of the salvage range of the shipwreck at loc: the tiles of
      its square in visiting order. */
  function RangeDraws(loc: Tile, cfg: Config, counts: map<Tile, int>, proj: Tile -> Option<Quad>): seq<Draw>
  {
    DrawsFor(RangeTiles(RangeBounds(loc)), RangeBounds(loc), cfg, counts, proj)
  }

  /** Every event of a salvage range is planned for its square and draws a
      tile of that square. */
  lemma RangeDrawsEvents(loc: Tile, cfg: Config, counts: map<Tile, int>, proj: Tile -> Option<Quad>)
    ensures forall d :: d in RangeDraws(loc, cfg, counts, proj) ==>
      PlannedEvent(d, RangeBounds(loc), cfg, counts) && InSquare(RangeBounds(loc), d.tile)
  {
    RangeTilesExactlyOnce(loc);
    DrawsForPlanned(RangeTiles(RangeBounds(loc)), RangeBounds(loc), cfg, counts, proj);
  }

  /** Each tile of the square is drawn once, with its own colours and the
      flags of this square's boundary; no other tile is drawn. */
  lemma RangeTileEvents(loc: Tile, cfg: Config, counts: map<Tile, int>, proj: Tile -> Option<Quad>, t: Tile)
    ensures EventsOf(RangeDraws(loc, cfg, counts, proj), t)
            == if InSquare(RangeBounds(loc), t) then PlannedTile(t, RangeBounds(loc), cfg, counts, proj) else []
  {
    RangeTilesExactlyOnce(loc);
    DrawsForEvents(RangeTiles(RangeBounds(loc)), RangeBounds(loc), cfg, counts, proj, t);
  }

  /** The events of the walk of square b before column x, row y: one tile
      more per row, and a finished column is the start of the next one. */
  function WalkDraws(b: Bounds, x: int, y: int, cfg: Config, counts: map<Tile, int>, proj: Tile -> Option<Quad>): seq<Draw>
    requires b.minX <= x && b.minY <= y <= b.maxY + 1
    decreases x - b.minX, y - b.minY
  {
    if y > b.minY then WalkDraws(b, x, y - 1, cfg, counts, proj) + PlannedTile(Tile(x, y - 1, b.plane), b, cfg, counts, proj)
    else if x > b.minX then WalkDraws(b, x - 1, b.maxY + 1, cfg, counts, proj)
    else []
  }

  /** One more row of column x adds that row's tile to the visited draws. */
  lemma DrawsWalkedRow(b: Bounds, x: int, y: int, cfg: Config, counts: map<Tile, int>, proj: Tile -> Option<Quad>)
    requires b.minX <= x && b.minY < y
    ensures DrawsFor(Walked(b, x, y), b, cfg, counts, proj)
            == DrawsFor(Walked(b, x, y - 1), b, cfg, counts, proj) + PlannedTile(Tile(x, y - 1, b.plane), b, cfg, counts, proj)
  {
    WalkedNextRow(b, x, y - 1);
    assert y - 1 + 1 == y;
    DrawsForSnoc(Walked(b, x, y - 1), Tile(x, y - 1, b.plane), b, cfg, counts, proj);
  }

  /** The walk draws exactly the tiles it has visited, in visiting order. */
  lemma {:induction false} WalkDrawsVisited(b: Bounds, x: int, y: int, cfg: Config, counts: map<Tile, int>, proj: Tile -> Option<Quad>)
    requires b.minX <= x && b.minY <= y <= b.maxY + 1
    ensures WalkDraws(b, x, y, cfg, counts, proj) == DrawsFor(Walked(b, x, y), b, cfg, counts, proj)
    decreases x - b.minX, y - b.minY
  {
    if y > b.minY {
      WalkDrawsVisited(b, x, y - 1, cfg, counts, proj);
      DrawsWalkedRow(b, x, y, cfg, counts, proj);
    } else if x > b.minX {
      WalkDrawsVisited(b, x - 1, b.maxY + 1, cfg, counts, proj);
      WalkedNextColumn(b, x - 1);
    } else {
      assert Walked(b, x, y) == [];
    }
  }

  /** The walk past the last column has drawn every tile of the square. */
  lemma WalkComplete(b: Bounds, cfg: Config, counts: map<Tile, int>, proj: Tile -> Option<Quad>)
    requires b.minX <= b.maxX + 1 && b.minY <= b.maxY + 1
    ensures WalkDraws(b, b.maxX + 1, b.minY, cfg, counts, proj) == DrawsFor(RangeTiles(b), b, cfg, counts, proj)
  {
    WalkDrawsVisited(b, b.maxX + 1, b.minY, cfg, counts, proj);
    assert Walked(b, b.maxX + 1, b.minY) == RangeTiles(b);
  }

  /** A tile drawn in the colours its coverage selects, with the boundary
      flags of square b, is drawn as planned for b. */
  lemma PaintedTile(t: Tile, b: Bounds, cfg: Config, counts: map<Tile, int>, proj: Tile -> Option<Quad>,
                    fill: Color, border: Color)
    requires Paint(cfg, IsOverlap(cfg, counts, t)) == TilePaint(fill, border)
    ensures TileDraws(t, fill, border, cfg.tileBorderWidth,
                      Edges(t.x == b.minX, t.x == b.maxX, t.y == b.minY, t.y == b.maxY), proj)
            == PlannedTile(t, b, cfg, counts, proj)
  {
  }

  /** Draws the salvage range of the shipwreck at loc, column by column. */
  method RenderSalvageRange(loc: Tile, cfg: Config, counts: map<Tile, int>, proj: Tile -> Option<Quad>)
    returns (out: seq<Draw>)
    ensures out == RangeDraws(loc, cfg, counts, proj)
  {
    var b := RangeBounds(loc);
    var fillColor := WithAlpha(cfg.tileFillColor, cfg.fillOpacity);
    var borderColor := cfg.tileBorderColor;
    var borderWidth := cfg.tileBorderWidth;
    var overlapFillColor := WithAlpha(cfg.overlapFillColor, cfg.overlapFillColor.alpha);
    var overlapBorderColor := cfg.overlapBorderColor;
    out := [];
    for x := b.minX to b.maxX + 1
      invariant out == WalkDraws(b, x, b.minY, cfg, counts, proj)
    {
      for y := b.minY to b.maxY + 1
        invariant out == WalkDraws(b, x, y, cfg, counts, proj)
      {
        var tilePoint := Tile(x, y, b.plane);
        var isOverlap := cfg.showOverlap && Get(counts, tilePoint) > 1;
        var isWestEdge, isEastEdge, isSouthEdge, isNorthEdge := x == b.minX, x == b.maxX, y == b.minY, y == b.maxY;
        var tileFill := if isOverlap then overlapFillColor else fillColor;
        var tileBorder := if isOverlap then overlapBorderColor else borderColor;
        var tileOut := RenderTileWithSelectiveBorder(tilePoint, tileFill, tileBorder, borderWidth,
          isWestEdge, isEastEdge, isSouthEdge, isNorthEdge, proj);
        PaintedTile(tilePoint, b, cfg, counts, proj, tileFill, tileBorder);
        out := out + tileOut;
      }
    }
    WalkComplete(b, cfg, counts, proj);
  }

  // ---------------------------------------------------------------------
  // Dispatch over the shipwrecks of the frame.

  /** The colour of a shipwreck's highlight: depleted or active. */
  function HighlightColor(a: Shipwreck, cfg: Config): Color
  {
    if a.depleted then cfg.depletedShipwreckColor else cfg.activeShipwreckColor
  }

  /** Whether the highlight option for the shipwreck's state is on. */
  function HighlightWanted(a: Shipwreck, cfg: Config): bool
  {
    if a.depleted then cfg.highlightDepletedShipwrecks else cfg.highlightActiveShipwrecks
  }

  /** What one shipwreck draws. A disabled one draws nothing. A depleted one
      draws at most its highlight, in the depleted colour, and only when
      depleted highlighting is on. An active one draws its highlight in the
      active colour when active highlighting is on, and its range when range
      display is on. The highlight, when present, comes first. */
  function ShipwreckDraws(a: Shipwreck, cfg: Config, counts: map<Tile, int>,
                          proj: Tile -> Option<Quad>, area: Tile -> Option<Quad>): (r: seq<Draw>)
    ensures !a.enabled ==> r == []
    ensures a.enabled ==>
      r == (if HighlightWanted(a, cfg) then HighlightDraws(a.location, HighlightColor(a, cfg), area) else [])
           + (if Counted(a, cfg.showSalvageRange) then RangeDraws(a.location, cfg, counts, proj) else [])
  {
    if !a.enabled then []
    else if a.depleted then
      (if cfg.highlightDepletedShipwrecks then HighlightDraws(a.location, cfg.depletedShipwreckColor, area) else [])
    else
      (if cfg.highlightActiveShipwrecks then HighlightDraws(a.location, cfg.activeShipwreckColor, area) else [])
      + (if cfg.showSalvageRange then RangeDraws(a.location, cfg, counts, proj) else [])
  }

  /** A disabled shipwreck draws nothing. Range events come only from a
      counted shipwreck, lie in its square and are planned for that square;
      every other event is the wanted highlight in the colour the shipwreck's
      state selects, and a wanted highlight that projects comes first. */
  lemma ShipwreckDrawsEvents(a: Shipwreck, cfg: Config, counts: map<Tile, int>,
                             proj: Tile -> Option<Quad>, area: Tile -> Option<Quad>)
    ensures var r := ShipwreckDraws(a, cfg, counts, proj, area);
      (!a.enabled ==> r == [])
      && (forall d :: d in r && IsRangeEvent(d) ==>
            Counted(a, cfg.showSalvageRange) && InSquare(RangeBounds(a.location), d.tile)
            && PlannedEvent(d, RangeBounds(a.location), cfg, counts))
      && (forall d :: d in r && !IsRangeEvent(d) ==>
            a.enabled && HighlightWanted(a, cfg) && HighlightOf(d, a.location, HighlightColor(a, cfg)))
      && (a.enabled && HighlightWanted(a, cfg) && area(a.location).Some? ==>
            |r| >= 2 && r[0].FillArea? && r[1].OutlineArea?)
  {
    if Counted(a, cfg.showSalvageRange) {
      var h := HighlightDraws(a.location, cfg.activeShipwreckColor, area);
      var hs := if cfg.highlightActiveShipwrecks then h else [];
      assert ShipwreckDraws(a, cfg, counts, proj, area) == hs + RangeDraws(a.location, cfg, counts, proj);
      RangeDrawsEvents(a.location, cfg, counts, proj);
    }
  }

  /** Tile t's events in a shipwreck's draws are those of its own range
      square, if that range is drawn and contains t. */
  lemma ShipwreckTileEvents(a: Shipwreck, cfg: Config, counts: map<Tile, int>,
                            proj: Tile -> Option<Quad>, area: Tile -> Option<Quad>, t: Tile)
    ensures EventsOf(ShipwreckDraws(a, cfg, counts, proj, area), t)
            == if Covers(a, cfg.showSalvageRange, t) then PlannedTile(t, RangeBounds(a.location), cfg, counts, proj) else []
  {
    var h := HighlightDraws(a.location, HighlightColor(a, cfg), area);
    EventsOfUniform(h, t);
    EventsOfUniform([], t);
    RangeTileEvents(a.location, cfg, counts, proj, t);
    if a.enabled && !a.depleted {
      var hs := if cfg.highlightActiveShipwrecks then h else [];
      var rs := if cfg.showSalvageRange then RangeDraws(a.location, cfg, counts, proj) else [];
      EventsOfAppend(hs, rs, t);
    }
  }

  /** All events of one frame, shipwreck by shipwreck. */
  function FrameDraws(shipwrecks: seq<Shipwreck>, cfg: Config, counts: map<Tile, int>,
                      proj: Tile -> Option<Quad>, area: Tile -> Option<Quad>): seq<Draw>
  {
    if shipwrecks == [] then []
    else FrameDraws(shipwrecks[..|shipwrecks| - 1], cfg, counts, proj, area)
         + ShipwreckDraws(shipwrecks[|shipwrecks| - 1], cfg, counts, proj, area)
  }

  /** With range display off a frame has no range events; every range event
      is coloured by its tile's coverage; every highlight fill has alpha 50
      and every highlight outline width 2. */
  lemma {:induction false} FrameDrawsEvents(shipwrecks: seq<Shipwreck>, cfg: Config, counts: map<Tile, int>,
                                            proj: Tile -> Option<Quad>, area: Tile -> Option<Quad>)
    ensures var r := FrameDraws(shipwrecks, cfg, counts, proj, area);
      (!cfg.showSalvageRange ==> forall d :: d in r ==> !IsRangeEvent(d))
      && (forall d :: d in r && IsRangeEvent(d) ==> cfg.showSalvageRange && Painted(d, cfg, counts))
      && (forall d :: d in r && d.FillArea? ==> d.color.alpha == HighlightAlpha)
      && (forall d :: d in r && d.OutlineArea? ==> d.width == HighlightStroke)
  {
    if shipwrecks != [] {
      var init, a := shipwrecks[..|shipwrecks| - 1], shipwrecks[|shipwrecks| - 1];
      FrameDrawsEvents(init, cfg, counts, proj, area);
      ShipwreckDrawsEvents(a, cfg, counts, proj, area);
    }
  }

  /** Drawing shipwreck i extends the frame's trace by that shipwreck's events. */
  lemma FrameNext(trace: seq<Draw>, add: seq<Draw>, shipwrecks: seq<Shipwreck>, i: int, cfg: Config,
                  counts: map<Tile, int>, proj: Tile -> Option<Quad>, area: Tile -> Option<Quad>)
    requires 0 <= i < |shipwrecks|
    requires trace == FrameDraws(shipwrecks[..i], cfg, counts, proj, area)
    requires add == ShipwreckDraws(shipwrecks[i], cfg, counts, proj, area)
    ensures trace + add == FrameDraws(shipwrecks[..i + 1], cfg, counts, proj, area)
  {
    assert shipwrecks[..i + 1][..i] == shipwrecks[..i];
  }

  /** Tile t's events in a frame: for each counted shipwreck whose range
      contains t, in list order, the tile as drawn for that shipwreck's own
      square. */
  function CoveringDraws(shipwrecks: seq<Shipwreck>, cfg: Config, counts: map<Tile, int>,
                         proj: Tile -> Option<Quad>, t: Tile): seq<Draw>
  {
    if shipwrecks == [] then []
    else
      var a := shipwrecks[|shipwrecks| - 1];
      CoveringDraws(shipwrecks[..|shipwrecks| - 1], cfg, counts, proj, t)
      + (if Covers(a, cfg.showSalvageRange, t) then PlannedTile(t, RangeBounds(a.location), cfg, counts, proj) else [])
  }

  lemma {:induction false} FrameTileEvents(shipwrecks: seq<Shipwreck>, cfg: Config, counts: map<Tile, int>,
                                           proj: Tile -> Option<Quad>, area: Tile -> Option<Quad>, t: Tile)
    ensures EventsOf(FrameDraws(shipwrecks, cfg, counts, proj, area), t) == CoveringDraws(shipwrecks, cfg, counts, proj, t)
  {
    if shipwrecks != [] {
      var init, a := shipwrecks[..|shipwrecks| - 1], shipwrecks[|shipwrecks| - 1];
      FrameTileEvents(init, cfg, counts, proj, area, t);
      EventsOfAppend(FrameDraws(init, cfg, counts, proj, area), ShipwreckDraws(a, cfg, counts, proj, area), t);
      ShipwreckTileEvents(a, cfg, counts, proj, area, t);
    } else {
      EventsOfUniform([], t);
    }
  }

  /** A projectable tile is filled once per counted range that contains it. */
  lemma {:induction false} CoveringFills(shipwrecks: seq<Shipwreck>, cfg: Config, counts: map<Tile, int>,
                                         proj: Tile -> Option<Quad>, t: Tile)
    ensures FillCount(CoveringDraws(shipwrecks, cfg, counts, proj, t))
            == if proj(t).Some? then CoverCount(shipwrecks, cfg.showSalvageRange, t) else 0
  {
    if shipwrecks != [] {
      var init, a := shipwrecks[..|shipwrecks| - 1], shipwrecks[|shipwrecks| - 1];
      CoveringFills(init, cfg, counts, proj, t);
      var here := if Covers(a, cfg.showSalvageRange, t) then PlannedTile(t, RangeBounds(a.location), cfg, counts, proj) else [];
      FillCountAppend(CoveringDraws(init, cfg, counts, proj, t), here);
      var p := Paint(cfg, IsOverlap(cfg, counts, t));
      TileFillCount(t, p.fill, p.border, cfg.tileBorderWidth, EdgeFlags(RangeBounds(a.location), t), proj);
    }
  }

  /** Renders one frame: builds the coverage map, then draws every
      shipwreck in list order. */
  method Render(shipwrecks: seq<Shipwreck>, cfg: Config, proj: Tile -> Option<Quad>, area: Tile -> Option<Quad>)
    returns (trace: seq<Draw>)
    ensures trace == FrameDraws(shipwrecks, cfg, CoverageMap(shipwrecks, cfg.showSalvageRange), proj, area)
  {
    var tileOverlapCount := ComputeCoverage(shipwrecks, cfg.showSalvageRange);
    assert tileOverlapCount == CoverageMap(shipwrecks, cfg.showSalvageRange);
    trace := [];
    for i := 0 to |shipwrecks|
      invariant trace == FrameDraws(shipwrecks[..i], cfg, tileOverlapCount, proj, area)
    {
      var shipwreck := shipwrecks[i];
      if !shipwreck.enabled {
        FrameNext(trace, [], shipwrecks, i, cfg, tileOverlapCount, proj, area);
        assert trace + [] == trace;
        continue;
      }
      var shipwreckLocation := shipwreck.location;
      var isDepleted := shipwreck.depleted;
      var add: seq<Draw> := [];
      if isDepleted {
        if cfg.highlightDepletedShipwrecks {
          add := RenderShipwreckHighlight(shipwreckLocation, cfg.depletedShipwreckColor, area);
        }
      } else {
        var h: seq<Draw> := [];
        if cfg.highlightActiveShipwrecks {
          h := RenderShipwreckHighlight(shipwreckLocation, cfg.activeShipwreckColor, area);
        }
        var range: seq<Draw> := [];
        if cfg.showSalvageRange {
          range := RenderSalvageRange(shipwreckLocation, cfg, tileOverlapCount, proj);
        }
        add := h + range;
      }
      FrameNext(trace, add, shipwrecks, i, cfg, tileOverlapCount, proj, area);
      trace := trace + add;
    }
    assert shipwrecks[..|shipwrecks|] == shipwrecks;
  }

  /** What a frame draws on tile t: the tile once for every counted range
      containing it, each time with the borders of that range's own square
      (overlapping ranges draw their borders independently), and in the
      overlap colours exactly when overlap display is on and more than one
      range covers t. */
  lemma FrameTileSummary(shipwrecks: seq<Shipwreck>, cfg: Config, proj: Tile -> Option<Quad>,
                         area: Tile -> Option<Quad>, t: Tile)
    ensures var counts := CoverageMap(shipwrecks, cfg.showSalvageRange);
      var ev := EventsOf(FrameDraws(shipwrecks, cfg, counts, proj, area), t);
      ev == CoveringDraws(shipwrecks, cfg, counts, proj, t)
      && FillCount(ev) == (if proj(t).Some? then CoverCount(shipwrecks, cfg.showSalvageRange, t) else 0)
      && (IsOverlap(cfg, counts, t) <==> cfg.showOverlap && CoverCount(shipwrecks, cfg.showSalvageRange, t) > 1)
  {
    var counts := CoverageMap(shipwrecks, cfg.showSalvageRange);
    FrameTileEvents(shipwrecks, cfg, counts, proj, area, t);
    CoveringFills(shipwrecks, cfg, counts, proj, t);
  }

  /** An interior tile is its fill alone. */
  lemma InteriorTileDraws(t: Tile, fill: Color, border: Color, width: nat, proj: Tile -> Option<Quad>)
    requires proj(t).Some?
    ensures TileDraws(t, fill, border, width, Edges(false, false, false, false), proj) == [FillTile(t, proj(t).value, fill)]
  {
    var q := proj(t).value;
    assert EdgeDraw(t, q, South, false, border, width) == [];
  }

  /** A tile on the west edge only is its fill and then its west side, from
      the north-west corner to the south-west corner. */
  lemma WestTileDraws(t: Tile, fill: Color, border: Color, width: nat, proj: Tile -> Option<Quad>)
    requires proj(t).Some?
    ensures var q := proj(t).value;
      TileDraws(t, fill, border, width, Edges(true, false, false, false), proj)
      == [FillTile(t, q, fill), Segment(t, West, q.nw, q.sw, border, width)]
  {
    var q := proj(t).value;
    assert EdgeDraw(t, q, South, false, border, width) == [];
  }

  /** Two active shipwrecks, the second ten tiles east of the first. */
  function TwoShipwrecks(loc: Tile): seq<Shipwreck>
  {
    [Shipwreck(loc, true, false), Shipwreck(Tile(loc.x + 10, loc.y, loc.plane), true, false)]
  }

  lemma TwoShipwrecksCovering(loc: Tile, cfg: Config, counts: map<Tile, int>, proj: Tile -> Option<Quad>, t: Tile)
    requires cfg.showSalvageRange
    requires InSquare(RangeBounds(loc), t) && InSquare(RangeBounds(Tile(loc.x + 10, loc.y, loc.plane)), t)
    ensures CoveringDraws(TwoShipwrecks(loc), cfg, counts, proj, t)
            == PlannedTile(t, RangeBounds(loc), cfg, counts, proj)
               + PlannedTile(t, RangeBounds(Tile(loc.x + 10, loc.y, loc.plane)), cfg, counts, proj)
  {
    var shipwrecks := TwoShipwrecks(loc);
    var first := shipwrecks[..1];
    assert shipwrecks[..|shipwrecks| - 1] == first && first[..|first| - 1] == [];
    assert CoveringDraws(first, cfg, counts, proj, t) == PlannedTile(t, RangeBounds(loc), cfg, counts, proj);
  }

  /** With overlap display on, the tile three east of the first shipwreck is
      an overlap tile: both ranges cover it. */
  lemma TwoShipwrecksOverlap(loc: Tile, cfg: Config)
    requires cfg.showOverlap
    ensures IsOverlap(cfg, CoverageMap(TwoShipwrecks(loc), true), Tile(loc.x + 3, loc.y, loc.plane))
  {
    var shipwrecks, t := TwoShipwrecks(loc), Tile(loc.x + 3, loc.y, loc.plane);
    var first := shipwrecks[..1];
    assert shipwrecks[..|shipwrecks| - 1] == first && first[..|first| - 1] == [];
    assert CoverCount(first, true, t) == 1;
    assert CoverCount(shipwrecks, true, t) == 2;
  }

  /** That tile, drawn as an overlap tile, is a bare fill in the first
      shipwreck's square and a fill with a west side in the second's. */
  lemma TwoShipwrecksTile(loc: Tile, cfg: Config, counts: map<Tile, int>, proj: Tile -> Option<Quad>)
    requires IsOverlap(cfg, counts, Tile(loc.x + 3, loc.y, loc.plane)) && proj(Tile(loc.x + 3, loc.y, loc.plane)).Some?
    ensures var t := Tile(loc.x + 3, loc.y, loc.plane);
      var q := proj(t).value;
      PlannedTile(t, RangeBounds(loc), cfg, counts, proj) == [FillTile(t, q, cfg.overlapFillColor)]
      && PlannedTile(t, RangeBounds(Tile(loc.x + 10, loc.y, loc.plane)), cfg, counts, proj)
         == [FillTile(t, q, cfg.overlapFillColor), Segment(t, West, q.nw, q.sw, cfg.overlapBorderColor, cfg.tileBorderWidth)]
  {
    var t := Tile(loc.x + 3, loc.y, loc.plane);
    var p := Paint(cfg, IsOverlap(cfg, counts, t));
    assert p == TilePaint(cfg.overlapFillColor, cfg.overlapBorderColor);
    assert EdgeFlags(RangeBounds(loc), t) == Edges(false, false, false, false);
    assert EdgeFlags(RangeBounds(Tile(loc.x + 10, loc.y, loc.plane)), t) == Edges(true, false, false, false);
    InteriorTileDraws(t, p.fill, p.border, cfg.tileBorderWidth, proj);
    WestTileDraws(t, p.fill, p.border, cfg.tileBorderWidth, proj);
  }

  /** The events of that tile over both shipwrecks: two overlap fills and
      the second square's west side. */
  lemma TwoShipwrecksEvents(loc: Tile, cfg: Config, counts: map<Tile, int>, proj: Tile -> Option<Quad>)
    requires cfg.showSalvageRange && IsOverlap(cfg, counts, Tile(loc.x + 3, loc.y, loc.plane))
    requires proj(Tile(loc.x + 3, loc.y, loc.plane)).Some?
    ensures var t := Tile(loc.x + 3, loc.y, loc.plane);
      var q := proj(t).value;
      CoveringDraws(TwoShipwrecks(loc), cfg, counts, proj, t)
      == [FillTile(t, q, cfg.overlapFillColor), FillTile(t, q, cfg.overlapFillColor),
          Segment(t, West, q.nw, q.sw, cfg.overlapBorderColor, cfg.tileBorderWidth)]
  {
    var t := Tile(loc.x + 3, loc.y, loc.plane);
    var q := proj(t).value;
    TwoShipwrecksTile(loc, cfg, counts, proj);
    TwoShipwrecksCovering(loc, cfg, counts, proj, t);
    var fill := FillTile(t, q, cfg.overlapFillColor);
    var west := Segment(t, West, q.nw, q.sw, cfg.overlapBorderColor, cfg.tileBorderWidth);
    assert [fill] + [fill, west] == [fill, fill, west];
  }

  /** Two active shipwrecks ten tiles apart on the x axis: the tile three
      east of the first lies strictly inside the first one's square, yet it
      gets a west border from the second one's square, whose west edge it
      is. It is filled twice, in the overlap fill, and its only border is
      that west side. */
  lemma PerShipwreckBorderQuirk(loc: Tile, cfg: Config, proj: Tile -> Option<Quad>, area: Tile -> Option<Quad>)
    requires cfg.showSalvageRange && cfg.showOverlap && proj(Tile(loc.x + 3, loc.y, loc.plane)).Some?
    ensures var t := Tile(loc.x + 3, loc.y, loc.plane);
      var q := proj(t).value;
      var ev := EventsOf(FrameDraws(TwoShipwrecks(loc), cfg, CoverageMap(TwoShipwrecks(loc), true), proj, area), t);
      Interior(RangeBounds(loc), t)
      && ev == [FillTile(t, q, cfg.overlapFillColor), FillTile(t, q, cfg.overlapFillColor),
                Segment(t, West, q.nw, q.sw, cfg.overlapBorderColor, cfg.tileBorderWidth)]
  {
    var t := Tile(loc.x + 3, loc.y, loc.plane);
    var counts := CoverageMap(TwoShipwrecks(loc), true);
    TwoShipwrecksOverlap(loc, cfg);
    TwoShipwrecksEvents(loc, cfg, counts, proj);
    FrameTileEvents(TwoShipwrecks(loc), cfg, counts, proj, area, t);
  }
}
