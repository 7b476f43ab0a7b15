/** World tiles, the salvage range square around a shipwreck, the boundary
    flags of the square's tiles and the column-by-column order in which the
    overlay walks the square. */
module Tiles {

  /** How far the salvage range reaches out from the shipwreck's edge. */
  const SalvageRange: int := 7
  /** Shipwrecks occupy a square of 2 x 2 tiles. */
  const ShipwreckSize: int := 2
  /** Side length of a range square. */
  const Span: int := 2 * SalvageRange + ShipwreckSize

  /** A world point: tile coordinates and the plane (floor level). */
  datatype Tile = Tile(x: int, y: int, plane: int)

  /** Inclusive bounds of a square of tiles on one plane. */
  datatype Bounds = Bounds(minX: int, maxX: int, minY: int, maxY: int, plane: int)

  predicate InSquare(b: Bounds, t: Tile)
  {
    t.plane == b.plane && b.minX <= t.x <= b.maxX && b.minY <= t.y <= b.maxY
  }

  /** Distance from coordinate v to the footprint interval that starts at lo. */
  function Gap(lo: int, v: int): nat
  {
    if v < lo then lo - v
    else if v > lo + ShipwreckSize - 1 then v - (lo + ShipwreckSize - 1)
    else 0
  }

  /** Tile t is on the shipwreck's plane and at most SalvageRange tiles away
      from the shipwreck's footprint, along each axis. */
  predicate WithinReach(loc: Tile, t: Tile)
  {
    t.plane == loc.plane && Gap(loc.x, t.x) <= SalvageRange && Gap(loc.y, t.y) <= SalvageRange
  }

  /** The range square of a shipwreck whose reference tile is loc. */
  function RangeBounds(loc: Tile): (b: Bounds)
    ensures b.minX == loc.x - 7 && b.maxX == loc.x + 8
    ensures b.minY == loc.y - 7 && b.maxY == loc.y + 8
    ensures b.plane == loc.plane
    ensures b.maxX - b.minX + 1 == Span == 16 && b.maxY - b.minY + 1 == Span
    ensures forall t :: InSquare(b, t) <==> WithinReach(loc, t)
  {
    Bounds(loc.x - SalvageRange, loc.x + ShipwreckSize - 1 + SalvageRange,
           loc.y - SalvageRange, loc.y + ShipwreckSize - 1 + SalvageRange,
           loc.plane)
  }

  /** Which sides of a tile lie on the boundary of a square. */
  datatype Edges = Edges(west: bool, east: bool, south: bool, north: bool)

  /** The sides of t that lie on the boundary of b: within the square some
      flag is set exactly when t is not an interior tile. */
  function EdgeFlags(b: Bounds, t: Tile): (e: Edges)
    ensures InSquare(b, t) ==> ((e.west || e.east || e.south || e.north) <==> !Interior(b, t))
  {
    Edges(t.x == b.minX, t.x == b.maxX, t.y == b.minY, t.y == b.maxY)
  }

  function FlagCount(e: Edges): nat
  {
    (if e.west then 1 else 0) + (if e.east then 1 else 0)
    + (if e.south then 1 else 0) + (if e.north then 1 else 0)
  }

  predicate OnCorner(b: Bounds, t: Tile)
  {
    (t.x == b.minX || t.x == b.maxX) && (t.y == b.minY || t.y == b.maxY)
  }

  predicate Interior(b: Bounds, t: Tile)
  {
    b.minX < t.x < b.maxX && b.minY < t.y < b.maxY
  }

  /** Within a range square no tile is both west and east (or south and
      north) boundary; corner tiles carry exactly two flags, interior tiles
      none, and every other tile of the square exactly one. */
  lemma EdgeFlagsInRange(loc: Tile, t: Tile)
    requires InSquare(RangeBounds(loc), t)
    ensures var e := EdgeFlags(RangeBounds(loc), t);
      !(e.west && e.east) && !(e.south && e.north)
      && (FlagCount(e) == 2 <==> OnCorner(RangeBounds(loc), t))
      && (FlagCount(e) == 0 <==> Interior(RangeBounds(loc), t))
      && FlagCount(e) <= 2
  {
  }

  // The order in which the overlay visits a square: x outer, y inner.

  function Width(b: Bounds): nat
  {
    if b.maxX < b.minX then 0 else b.maxX - b.minX + 1
  }

  function Height(b: Bounds): nat
  {
    if b.maxY < b.minY then 0 else b.maxY - b.minY + 1
  }

  /** The first n tiles of column x, from y = minY upwards. */
  function Column(b: Bounds, x: int, n: nat): seq<Tile>
  {
    if n == 0 then [] else Column(b, x, n - 1) + [Tile(x, b.minY + n - 1, b.plane)]
  }

  /** The first m columns of the square, each of full height. */
  function Grid(b: Bounds, m: nat): seq<Tile>
  {
    if m == 0 then [] else Grid(b, m - 1) + Column(b, b.minX + m - 1, Height(b))
  }

  lemma ColumnSnoc(b: Bounds, x: int, n: nat)
    ensures Column(b, x, n + 1) == Column(b, x, n) + [Tile(x, b.minY + n, b.plane)]
  {
  }

  lemma GridSnoc(b: Bounds, m: nat)
    ensures Grid(b, m + 1) == Grid(b, m) + Column(b, b.minX + m, Height(b))
  {
  }

  /** The tiles visited before column x, row y: all earlier columns, then the
      rows of column x below y. */
  function Walked(b: Bounds, x: int, y: int): seq<Tile>
    requires b.minX <= x && b.minY <= y
  {
    Grid(b, x - b.minX) + Column(b, x, y - b.minY)
  }

  lemma WalkedNextRow(b: Bounds, x: int, y: int)
    requires b.minX <= x && b.minY <= y
    ensures Walked(b, x, y + 1) == Walked(b, x, y) + [Tile(x, y, b.plane)]
  {
    var n := y - b.minY;
    ColumnSnoc(b, x, n);
    assert y + 1 - b.minY == n + 1;
  }

  lemma WalkedNextColumn(b: Bounds, x: int)
    requires b.minX <= x && b.minY <= b.maxY + 1
    ensures Walked(b, x, b.maxY + 1) == Walked(b, x + 1, b.minY)
  {
    GridSnoc(b, x - b.minX);
    assert Walked(b, x + 1, b.minY) == Grid(b, x + 1 - b.minX) + [];
  }

  /** Every tile of the square, in visiting order. */
  function RangeTiles(b: Bounds): seq<Tile>
  {
    Grid(b, Width(b))
  }

  predicate Distinct(s: seq<Tile>)
  {
    forall i, j :: 0 <= i < j < |s| ==> s[i] != s[j]
  }

  lemma {:induction false} ColumnFacts(b: Bounds, x: int, n: nat)
    ensures |Column(b, x, n)| == n
    ensures Distinct(Column(b, x, n))
    ensures forall t :: t in Column(b, x, n) <==>
      t.plane == b.plane && t.x == x && b.minY <= t.y < b.minY + n
  {
    if n > 0 {
      ColumnFacts(b, x, n - 1);
      var c := Column(b, x, n - 1);
      assert Column(b, x, n) == c + [Tile(x, b.minY + n - 1, b.plane)];
      forall t ensures t in Column(b, x, n) <==> t in c || t == Tile(x, b.minY + n - 1, b.plane) {
      }
    }
  }

  /** Dropping the last tile of a distinct sequence keeps it distinct, and
      the dropped tile is not among the rest. */
  lemma DistinctInit(ts: seq<Tile>)
    requires Distinct(ts) && ts != []
    ensures Distinct(ts[..|ts| - 1]) && ts[|ts| - 1] !in ts[..|ts| - 1]
    ensures forall t :: t in ts <==> t in ts[..|ts| - 1] || t == ts[|ts| - 1]
  {
    var init, last := ts[..|ts| - 1], ts[|ts| - 1];
    forall i | 0 <= i < |init| ensures init[i] == ts[i] && init[i] != last {
    }
    assert ts == init + [last];
  }

  lemma DistinctAppend(s: seq<Tile>, u: seq<Tile>)
    requires Distinct(s) && Distinct(u)
    requires forall t :: t in s ==> t !in u
    ensures Distinct(s + u)
  {
    var w := s + u;
    forall i, j | 0 <= i < j < |w| ensures w[i] != w[j] {
      if j >= |s| && i < |s| {
        assert w[i] in s && w[j] == u[j - |s|];
      } else if i >= |s| {
        assert w[i] == u[i - |s|] && w[j] == u[j - |s|];
      }
    }
  }

  lemma MulStep(m: int, h: int)
    ensures (m - 1) * h + h == m * h
  {
  }

  lemma {:induction false} GridLength(b: Bounds, m: nat)
    ensures |Grid(b, m)| == m * Height(b)
  {
    if m > 0 {
      GridLength(b, m - 1);
      ColumnFacts(b, b.minX + m - 1, Height(b));
      MulStep(m, Height(b));
    }
  }

  lemma {:induction false} GridMembers(b: Bounds, m: nat)
    ensures forall t :: t in Grid(b, m) <==>
      t.plane == b.plane && b.minX <= t.x < b.minX + m && b.minY <= t.y <= b.maxY
  {
    if m > 0 {
      GridMembers(b, m - 1);
      var g, c := Grid(b, m - 1), Column(b, b.minX + m - 1, Height(b));
      ColumnFacts(b, b.minX + m - 1, Height(b));
      forall t ensures t in Grid(b, m) <==> t in g || t in c {
      }
    }
  }

  lemma {:induction false} GridDistinct(b: Bounds, m: nat)
    ensures Distinct(Grid(b, m))
  {
    if m > 0 {
      GridDistinct(b, m - 1);
      GridMembers(b, m - 1);
      var g, c := Grid(b, m - 1), Column(b, b.minX + m - 1, Height(b));
      ColumnFacts(b, b.minX + m - 1, Height(b));
      DistinctAppend(g, c);
    }
  }

  lemma GridFacts(b: Bounds, m: nat)
    ensures |Grid(b, m)| == m * Height(b)
    ensures Distinct(Grid(b, m))
    ensures forall t :: t in Grid(b, m) <==>
      t.plane == b.plane && b.minX <= t.x < b.minX + m && b.minY <= t.y <= b.maxY
  {
    GridLength(b, m);
    GridDistinct(b, m);
    GridMembers(b, m);
  }

  /** The overlay visits each of the 256 tiles of a range square exactly
      once, and nothing outside it. */
  lemma RangeTilesExactlyOnce(loc: Tile)
    ensures |RangeTiles(RangeBounds(loc))| == 256
    ensures Distinct(RangeTiles(RangeBounds(loc)))
    ensures forall t :: t in RangeTiles(RangeBounds(loc)) <==> InSquare(RangeBounds(loc), t)
  {
    var b := RangeBounds(loc);
    GridFacts(b, Width(b));
  }

  /** A shipwreck at (100, 100, 0) has the range x, y in [93, 108]; its corner
      tile (93, 93, 0) is a west and a south boundary tile only. */
  lemma ScenarioSingleShipwreck()
    ensures RangeBounds(Tile(100, 100, 0)) == Bounds(93, 108, 93, 108, 0)
    ensures EdgeFlags(RangeBounds(Tile(100, 100, 0)), Tile(93, 93, 0)) == Edges(true, false, true, false)
  {
  }
}
