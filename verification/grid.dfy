/**
 Tile positions on the tilemap and the four-neighbourhood used by the
 placement search. The z coordinate of Unity's Vector3Int is always 0 in this
 system, so a cell is a pair (x, y).
 */
module Grid {

  /** A tile position (x, y). */
  type Cell = (int, int)

  /** The tile-legality oracle: is the tile at this cell one of the allowed tiles?
      It stands for `tilemap.GetTile` followed by `AllowedTiles.Contains`. */
  type Oracle = Cell -> bool

  /* Vector3Int.up, .down, .left and .right added to a position, on unbounded
     integers (the 32-bit wrap-around at the int range's ends is not modelled). */
  function Up(c: Cell): Cell { (c.0, c.1 + 1) }
  function Down(c: Cell): Cell { (c.0, c.1 - 1) }
  function Left(c: Cell): Cell { (c.0 - 1, c.1) }
  function Right(c: Cell): Cell { (c.0 + 1, c.1) }

  function Abs(x: int): nat { if x < 0 then -x else x }

  /** Two cells are 4-adjacent when their Manhattan distance is exactly one. */
  predicate Adjacent(a: Cell, b: Cell) {
    Abs(a.0 - b.0) + Abs(a.1 - b.1) == 1
  }

  /** The position of a neighbour of `p` in the fixed trial order up, down, left, right. */
  function Rank(p: Cell, c: Cell): nat {
    if c == Up(p) then 0
    else if c == Down(p) then 1
    else if c == Left(p) then 2
    else 3
  }

  /** GetAllowedTileNeighbors: the allowed 4-neighbours of `p`, in the order
      up, down, left, right. */
  function Neighbors(allowed: Oracle, p: Cell): (r: seq<Cell>)
    ensures |r| <= 4
    ensures allowed(Up(p)) && allowed(Down(p)) && allowed(Left(p)) && allowed(Right(p)) ==> |r| == 4
  {
    (if allowed(Up(p)) then [Up(p)] else [])
    + (if allowed(Down(p)) then [Down(p)] else [])
    + (if allowed(Left(p)) then [Left(p)] else [])
    + (if allowed(Right(p)) then [Right(p)] else [])
  }

  /** The neighbours tried from `p` are exactly its allowed 4-adjacent cells. */
  lemma NeighborsSpec(allowed: Oracle, p: Cell)
    ensures forall c :: c in Neighbors(allowed, p) <==> Adjacent(p, c) && allowed(c)
  {
  }

  /** The neighbours are tried in the order up, down, left, right, so none is tried twice. */
  lemma NeighborsInTrialOrder(allowed: Oracle, p: Cell)
    ensures var ns := Neighbors(allowed, p);
            && (forall i, j :: 0 <= i < j < |ns| ==> Rank(p, ns[i]) < Rank(p, ns[j]))
            && (forall i, j :: 0 <= i < j < |ns| ==> ns[i] != ns[j])
  {
  }
}
