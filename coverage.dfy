/** The coverage map: for every tile, how many counted shipwrecks have it
    in their salvage range. It is rebuilt from scratch for every frame. */
module Coverage {
  import opened Tiles

  /** One shipwreck as the plugin reports it for this frame: its world
      location and the two per-shipwreck answers (enabled by the user,
      already depleted). */
  datatype Shipwreck = Shipwreck(location: Tile, enabled: bool, depleted: bool)

  /** A shipwreck's range is counted when it is enabled, not depleted, and
      ranges are shown at all. */
  predicate Counted(a: Shipwreck, showSalvageRange: bool)
  {
    a.enabled && !a.depleted && showSalvageRange
  }

  predicate Covers(a: Shipwreck, showSalvageRange: bool, t: Tile)
  {
    Counted(a, showSalvageRange) && InSquare(RangeBounds(a.location), t)
  }

  /** The number of shipwrecks in the list whose counted range contains t. */
  function CoverCount(shipwrecks: seq<Shipwreck>, showSalvageRange: bool, t: Tile): (n: nat)
    ensures n <= |shipwrecks|
  {
    if shipwrecks == [] then 0
    else CoverCount(shipwrecks[..|shipwrecks| - 1], showSalvageRange, t)
         + (if Covers(shipwrecks[|shipwrecks| - 1], showSalvageRange, t) then 1 else 0)
  }

  /** Adding a position m that is not yet in a set grows it by one. */
  lemma SetGrows(all: set<int>, earlier: set<int>, m: int, hit: bool)
    requires forall k :: k in all <==> k in earlier || (hit && k == m)
    requires m !in earlier
    ensures |all| == |earlier| + (if hit then 1 else 0)
  {
    if hit {
      forall k ensures k in all <==> k in earlier + {m} {
      }
      assert all == earlier + {m};
    } else {
      forall k ensures k in all <==> k in earlier {
      }
      assert all == earlier;
    }
  }

  /** The count over the first m shipwrecks is the number of positions
      below m whose shipwreck covers t. */
  lemma {:induction false} CoverCountPrefix(shipwrecks: seq<Shipwreck>, m: nat, showSalvageRange: bool, t: Tile)
    requires m <= |shipwrecks|
    ensures CoverCount(shipwrecks[..m], showSalvageRange, t)
            == |set k | 0 <= k < m && Covers(shipwrecks[k], showSalvageRange, t)|
  {
    var all := set k | 0 <= k < m && Covers(shipwrecks[k], showSalvageRange, t);
    if m == 0 {
      assert all == {};
    } else {
      CoverCountPrefix(shipwrecks, m - 1, showSalvageRange, t);
      var earlier := set k | 0 <= k < m - 1 && Covers(shipwrecks[k], showSalvageRange, t);
      assert shipwrecks[..m][..m - 1] == shipwrecks[..m - 1] && shipwrecks[..m][m - 1] == shipwrecks[m - 1];
      SetGrows(all, earlier, m - 1, Covers(shipwrecks[m - 1], showSalvageRange, t));
    }
  }

  /** The count is the size of the set of list positions whose shipwreck
      covers t: shipwrecks at the same location count separately. */
  lemma CoverCountIsCardinality(shipwrecks: seq<Shipwreck>, showSalvageRange: bool, t: Tile)
    ensures CoverCount(shipwrecks, showSalvageRange, t)
            == |set k | 0 <= k < |shipwrecks| && Covers(shipwrecks[k], showSalvageRange, t)|
  {
    CoverCountPrefix(shipwrecks, |shipwrecks|, showSalvageRange, t);
    assert shipwrecks[..|shipwrecks|] == shipwrecks;
  }

  /** With range display off, no tile is covered. */
  lemma {:induction false} NoRangeNoCoverage(shipwrecks: seq<Shipwreck>, t: Tile)
    ensures CoverCount(shipwrecks, false, t) == 0
  {
    if shipwrecks != [] {
      NoRangeNoCoverage(shipwrecks[..|shipwrecks| - 1], t);
    }
  }

  /** Every tile of any counted range. */
  ghost function Covered(shipwrecks: seq<Shipwreck>, showSalvageRange: bool): set<Tile>
  {
    if shipwrecks == [] then {}
    else
      var a := shipwrecks[|shipwrecks| - 1];
      Covered(shipwrecks[..|shipwrecks| - 1], showSalvageRange)
      + (if Counted(a, showSalvageRange) then set t | t in RangeTiles(RangeBounds(a.location)) else {})
  }

  lemma {:induction false} CoveredIffCounted(shipwrecks: seq<Shipwreck>, showSalvageRange: bool, t: Tile)
    ensures t in Covered(shipwrecks, showSalvageRange) <==> CoverCount(shipwrecks, showSalvageRange, t) > 0
  {
    if shipwrecks != [] {
      CoveredIffCounted(shipwrecks[..|shipwrecks| - 1], showSalvageRange, t);
      RangeTilesExactlyOnce(shipwrecks[|shipwrecks| - 1].location);
    }
  }

  /** The coverage map the overlay should build: the covered tiles, each
      with its count, and no entry for any other tile. */
  ghost function CoverageMap(shipwrecks: seq<Shipwreck>, showSalvageRange: bool): (m: map<Tile, int>)
    ensures forall t :: t in m <==> CoverCount(shipwrecks, showSalvageRange, t) > 0
    ensures forall t :: t in m ==> m[t] == CoverCount(shipwrecks, showSalvageRange, t)
  {
    forall t ensures t in Covered(shipwrecks, showSalvageRange) <==> CoverCount(shipwrecks, showSalvageRange, t) > 0 {
      CoveredIffCounted(shipwrecks, showSalvageRange, t);
    }
    map t | t in Covered(shipwrecks, showSalvageRange) :: CoverCount(shipwrecks, showSalvageRange, t)
  }

  /** A map lookup that yields 0 for a missing key. */
  function Get(m: map<Tile, int>, t: Tile): int
  {
    if t in m then m[t] else 0
  }

  /** Tile t has been counted once the column-by-column walk of b has reached
      column x, row y. */
  ghost predicate Visited(b: Bounds, x: int, y: int, t: Tile)
  {
    t.plane == b.plane && b.minY <= t.y <= b.maxY && b.minX <= t.x && (t.x < x || (t.x == x && t.y < y))
  }

  /** Builds the coverage map: every counted shipwreck adds one to each tile
      of its range square. */
  method ComputeCoverage(shipwrecks: seq<Shipwreck>, showSalvageRange: bool) returns (counts: map<Tile, int>)
    ensures forall t :: t in counts <==> CoverCount(shipwrecks, showSalvageRange, t) > 0
    ensures forall t :: Get(counts, t) == CoverCount(shipwrecks, showSalvageRange, t)
    ensures !showSalvageRange ==> counts == map[]
  {
    counts := map[];
    for i := 0 to |shipwrecks|
      invariant forall t :: Get(counts, t) == CoverCount(shipwrecks[..i], showSalvageRange, t)
      invariant forall t :: t in counts ==> counts[t] > 0
    {
      var a := shipwrecks[i];
      assert shipwrecks[..i + 1][..i] == shipwrecks[..i] && shipwrecks[..i + 1][i] == a;
      if !a.enabled {
        continue;
      }
      if a.depleted {
        continue;
      }
      if !showSalvageRange {
        continue;
      }
      var b := RangeBounds(a.location);
      for x := b.minX to b.maxX + 1
        invariant forall t :: Get(counts, t) == CoverCount(shipwrecks[..i], showSalvageRange, t) + (if Visited(b, x, b.minY, t) then 1 else 0)
        invariant forall t :: t in counts ==> counts[t] > 0
      {
        for y := b.minY to b.maxY + 1
          invariant forall t :: Get(counts, t) == CoverCount(shipwrecks[..i], showSalvageRange, t) + (if Visited(b, x, y, t) then 1 else 0)
          invariant forall t :: t in counts ==> counts[t] > 0
        {
          var tile := Tile(x, y, b.plane);
          counts := counts[tile := Get(counts, tile) + 1];
        }
        ghost var rowEnd, nextColumn := b.maxY + 1, x + 1;
        assert forall t :: Visited(b, x, rowEnd, t) == Visited(b, nextColumn, b.minY, t);
      }
      assert forall t :: Visited(b, b.maxX + 1, b.minY, t) == Covers(a, showSalvageRange, t);
    }
    assert shipwrecks[..|shipwrecks|] == shipwrecks;
    if !showSalvageRange {
      forall t ensures t !in counts {
        NoRangeNoCoverage(shipwrecks, t);
      }
    }
  }

  /** Two shipwrecks ten tiles apart on the x axis: the tiles with x in
      [103, 108] and y in [93, 108] are covered twice, the rest of either
      square once. */
  lemma ScenarioTwoShipwrecks(t: Tile)
    ensures var shipwrecks := [Shipwreck(Tile(100, 100, 0), true, false), Shipwreck(Tile(110, 100, 0), true, false)];
      CoverCount(shipwrecks, true, t)
      == if t.plane == 0 && 103 <= t.x <= 108 && 93 <= t.y <= 108 then 2
         else if t.plane == 0 && 93 <= t.x <= 118 && 93 <= t.y <= 108 then 1
         else 0
  {
    var shipwrecks := [Shipwreck(Tile(100, 100, 0), true, false), Shipwreck(Tile(110, 100, 0), true, false)];
    var first := shipwrecks[..1];
    assert shipwrecks[..|shipwrecks| - 1] == first && first[..|first| - 1] == [];
    assert CoverCount(first, true, t) == if Covers(shipwrecks[0], true, t) then 1 else 0;
  }
}
