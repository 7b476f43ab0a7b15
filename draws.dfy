/** Screen geometry handed back by the projection and the draw events the
    overlay emits, in the order it emits them. */
module Draws {
  import opened Tiles
  import opened Colors

  datatype Option<T> = None | Some(value: T)

  datatype Point = Point(x: int, y: int)

  /** A projected tile or tile area, its corners in fixed winding order:
      0 = south-west, 1 = south-east, 2 = north-east, 3 = north-west. */
  datatype Quad = Quad(sw: Point, se: Point, ne: Point, nw: Point)

  function Corner(q: Quad, i: nat): Point
    requires i < 4
  {
    if i == 0 then q.sw else if i == 1 then q.se else if i == 2 then q.ne else q.nw
  }

  datatype Side = South | East | North | West

  /** The pair of corners whose segment is the given side of a tile. */
  function SideCorners(s: Side): (r: (nat, nat))
    ensures r.0 < 4 && r.1 == (r.0 + 1) % 4
  {
    match s
    case South => (0, 1)
    case East => (1, 2)
    case North => (2, 3)
    case West => (3, 0)
  }

  function Selected(e: Edges, s: Side): bool
  {
    match s
    case South => e.south
    case East => e.east
    case North => e.north
    case West => e.west
  }

  datatype Draw =
    /** Fill of a range tile's polygon. */
    | FillTile(tile: Tile, quad: Quad, color: Color)
    /** One side of a range tile's polygon, from corner to corner. */
    | Segment(tile: Tile, side: Side, from: Point, to: Point, color: Color, width: nat)
    /** Fill of a shipwreck's footprint polygon. */
    | FillArea(at: Tile, quad: Quad, color: Color)
    /** Outline of a shipwreck's footprint polygon. */
    | OutlineArea(at: Tile, quad: Quad, color: Color, width: nat)

  predicate IsRangeEvent(d: Draw)
  {
    d.FillTile? || d.Segment?
  }

  predicate IsTileEventAt(d: Draw, t: Tile)
  {
    IsRangeEvent(d) && d.tile == t
  }

  /** The events of trace s that draw tile t, in order. */
  function EventsOf(s: seq<Draw>, t: Tile): (r: seq<Draw>)
    ensures forall d :: d in r ==> d in s && IsTileEventAt(d, t)
  {
    if s == [] then []
    else EventsOf(s[..|s| - 1], t) + (if IsTileEventAt(s[|s| - 1], t) then [s[|s| - 1]] else [])
  }

  lemma {:induction false} EventsOfAppend(s: seq<Draw>, u: seq<Draw>, t: Tile)
    ensures EventsOf(s + u, t) == EventsOf(s, t) + EventsOf(u, t)
  {
    if u != [] {
      var w := u[..|u| - 1];
      EventsOfAppend(s, w, t);
      assert (s + u)[..|s + u| - 1] == s + w;
    } else {
      assert s + u == s;
    }
  }

  /** A trace none of whose events draws t has no events of t, and a trace all
      of whose events draw t is its own list of t's events. */
  lemma {:induction false} EventsOfUniform(s: seq<Draw>, t: Tile)
    ensures (forall d :: d in s ==> !IsTileEventAt(d, t)) ==> EventsOf(s, t) == []
    ensures (forall d :: d in s ==> IsTileEventAt(d, t)) ==> EventsOf(s, t) == s
  {
    if s != [] {
      EventsOfUniform(s[..|s| - 1], t);
      assert s == s[..|s| - 1] + [s[|s| - 1]];
    }
  }

  /** The number of fill events of range tiles in s. */
  function FillCount(s: seq<Draw>): nat
  {
    if s == [] then 0 else FillCount(s[..|s| - 1]) + (if s[|s| - 1].FillTile? then 1 else 0)
  }

  lemma {:induction false} FillCountAppend(s: seq<Draw>, u: seq<Draw>)
    ensures FillCount(s + u) == FillCount(s) + FillCount(u)
  {
    if u != [] {
      var w := u[..|u| - 1];
      FillCountAppend(s, w);
      assert (s + u)[..|s + u| - 1] == s + w;
    } else {
      assert s + u == s;
    }
  }

  lemma {:induction false} FillCountNone(s: seq<Draw>)
    requires forall d :: d in s ==> !d.FillTile?
    ensures FillCount(s) == 0
  {
    if s != [] {
      FillCountNone(s[..|s| - 1]);
    }
  }
}
