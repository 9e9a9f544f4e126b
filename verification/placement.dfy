/**
 The placement procedure shared by both location generators: sample a random
 allowed start cell inside the tilemap's cell bounds (FindStartPosition), run
 the path search from it, accept when the path has at least `numOfMoves`
 cells, and otherwise start over (the recursive call in GenerateLocation).

 Random.Range is replaced by a supplied sequence of draws, each draw an (x, y)
 pair. The sampling loop and the retry recursion have no bound in the
 program; here they stop when the supplied draws run out, which is reported as
 `OutOfDraws` (the program would go on drawing).
 */
module Placement {
  import opened Grid
  import opened PathSearch

  datatype Option<+T> = None | Some(value: T)

  /** Tilemap.cellBounds; xMax and yMax are exclusive. */
  datatype Bounds = Bounds(xMin: int, xMax: int, yMin: int, yMax: int)

  /** The allowed-tile oracle of a tilemap together with its cell bounds. */
  datatype Tilemap = Tilemap(allowed: Oracle, cellBounds: Bounds)

  /** The values Unity's integer Random.Range(lo, hi) can return: lo inclusive,
      hi exclusive, and lo itself when lo == hi. Reversed bounds (lo > hi) are
      not modelled; here they also give lo. */
  predicate InRange(lo: int, hi: int, v: int) {
    if lo < hi then lo <= v < hi else v == lo
  }

  /** A cell that the two Random.Range calls of FindStartPosition can produce. */
  predicate IsDraw(b: Bounds, c: Cell) {
    InRange(b.xMin, b.xMax, c.0) && InRange(b.yMin, b.yMax, c.1)
  }

  /** FindStartPosition: the index of the first drawn cell that is an
      allowed tile; the start cell is that draw, and the draws after it are
      left for later. */
  function FindStartPosition(tiles: Tilemap, draws: seq<Cell>): (r: Option<nat>)
    ensures r.None? <==> forall i :: 0 <= i < |draws| ==> !tiles.allowed(draws[i])
    ensures r.Some? ==> r.value < |draws| && tiles.allowed(draws[r.value])
    ensures r.Some? ==> forall i :: 0 <= i < r.value ==> !tiles.allowed(draws[i])
    ensures r.Some? && (forall i :: 0 <= i < |draws| ==> IsDraw(tiles.cellBounds, draws[i])) ==>
              IsDraw(tiles.cellBounds, draws[r.value])
    decreases |draws|
  {
    if draws == [] then None
    else if tiles.allowed(draws[0]) then Some(0)
    else
      match FindStartPosition(tiles, draws[1..])
      case None => None
      case Some(k) => Some(k + 1)
  }

  /** The acceptance test `path.Count >= numOfMoves` on the path searched from
      `start`; the search is spelled as GeneratePath's body so that this test
      does not carry GeneratePath's whole contract along. */
  predicate Accepts(tiles: Tilemap, numOfMoves: int, start: Cell) {
    |Dfs(tiles.allowed, [start], [], numOfMoves)| >= numOfMoves
  }

  /** Every allowed drawn start fails the test `accepts`. */
  predicate AllFail(tiles: Tilemap, accepts: Cell -> bool, draws: seq<Cell>) {
    forall i :: 0 <= i < |draws| && tiles.allowed(draws[i]) ==> !accepts(draws[i])
  }

  /** Every allowed drawn start fails the acceptance test. */
  predicate AllRejected(tiles: Tilemap, numOfMoves: int, draws: seq<Cell>) {
    AllFail(tiles, c => Accepts(tiles, numOfMoves, c), draws)
  }

  /** `c` is the first allowed draw that passes `accepts`: it is drawn at
      some index, is allowed, passes, and every allowed draw before it fails. */
  predicate FirstPassing(tiles: Tilemap, accepts: Cell -> bool, draws: seq<Cell>, c: Cell) {
    exists k :: 0 <= k < |draws| && draws[k] == c && tiles.allowed(c) && accepts(c) && AllFail(tiles, accepts, draws[..k])
  }

  /** `c` is the first allowed draw that passes the acceptance test. */
  predicate FirstAccepted(tiles: Tilemap, numOfMoves: int, draws: seq<Cell>, c: Cell) {
    FirstPassing(tiles, x => Accepts(tiles, numOfMoves, x), draws, c)
  }

  /** At most one draw is the first to pass, so FirstPassing pins the start down. */
  lemma FirstPassingIsUnique(tiles: Tilemap, accepts: Cell -> bool, draws: seq<Cell>, c: Cell, d: Cell)
    requires FirstPassing(tiles, accepts, draws, c) && FirstPassing(tiles, accepts, draws, d)
    ensures c == d
  {
    var k :| 0 <= k < |draws| && draws[k] == c && tiles.allowed(c) && accepts(c) && AllFail(tiles, accepts, draws[..k]);
    var j :| 0 <= j < |draws| && draws[j] == d && tiles.allowed(d) && accepts(d) && AllFail(tiles, accepts, draws[..j]);
  }

  /** The first allowed draw is the first to pass when it passes. */
  lemma FirstPassingAtFirstAllowed(tiles: Tilemap, accepts: Cell -> bool, draws: seq<Cell>, k: nat)
    requires FindStartPosition(tiles, draws) == Some(k)
    requires accepts(draws[k])
    ensures FirstPassing(tiles, accepts, draws, draws[k])
  {
    assert AllFail(tiles, accepts, draws[..k]) by {
      forall i | 0 <= i < k ensures draws[..k][i] == draws[i] && !tiles.allowed(draws[i]) {
      }
    }
  }

  /** When the first allowed draw fails, the first draw to pass among the
      remaining draws is the first to pass overall. */
  lemma FirstPassingAfterFailure(tiles: Tilemap, accepts: Cell -> bool, draws: seq<Cell>, k: nat, c: Cell)
    requires FindStartPosition(tiles, draws) == Some(k)
    requires !accepts(draws[k])
    requires FirstPassing(tiles, accepts, draws[k + 1..], c)
    ensures FirstPassing(tiles, accepts, draws, c)
  {
    var rest := draws[k + 1..];
    var j :| 0 <= j < |rest| && rest[j] == c && tiles.allowed(c) && accepts(c) && AllFail(tiles, accepts, rest[..j]);
    var m := k + 1 + j;
    assert draws[m] == c;
    forall i | 0 <= i < m && tiles.allowed(draws[..m][i])
      ensures !accepts(draws[..m][i])
    {
      assert draws[..m][i] == draws[i];
      if i > k {
        assert draws[i] == rest[..j][i - k - 1];
      }
    }
  }

  /** The acceptance test holds exactly when a full-length admissible path
      exists from the start (every start passes when `numOfMoves` <= 0). */
  lemma AcceptsIffFullPathExists(tiles: Tilemap, numOfMoves: int, start: Cell)
    ensures Accepts(tiles, numOfMoves, start) <==>
            (numOfMoves <= 0 || exists q :: Admissible(tiles.allowed, start, q, numOfMoves) && |q| == numOfMoves)
  {
    AcceptedIffFullPathExists(tiles.allowed, start, numOfMoves);
  }

  /** The outcome of one GenerateLocation call. */
  datatype Attempt = Placed(start: Cell, path: Path) | OutOfDraws

  /** GenerateLocation's search loop: pick a start, search, accept when
      `path.Count >= numOfMoves`, otherwise retry with fresh draws. */
  function Place(tiles: Tilemap, numOfMoves: int, draws: seq<Cell>): (r: Attempt)
    ensures r.Placed? ==> tiles.allowed(r.start) && r.start in draws
    ensures r.Placed? ==> r.path == GeneratePath(tiles.allowed, r.start, numOfMoves)
    ensures r.Placed? ==> |r.path| >= numOfMoves
    ensures r.Placed? && numOfMoves >= 1 ==>
              |r.path| == numOfMoves && Admissible(tiles.allowed, r.start, r.path, numOfMoves)
    ensures r.Placed? && (forall i :: 0 <= i < |draws| ==> IsDraw(tiles.cellBounds, draws[i])) ==>
              IsDraw(tiles.cellBounds, r.start)
    decreases |draws|
  {
    match FindStartPosition(tiles, draws)
    case None => OutOfDraws
    case Some(k) =>
      var start := draws[k];
      if Accepts(tiles, numOfMoves, start) then Placed(start, GeneratePath(tiles.allowed, start, numOfMoves))
      else
        var r := Place(tiles, numOfMoves, draws[k + 1..]);
        assert r.Placed? ==> r.start in draws by {
          if r.Placed? {
            var j :| 0 <= j < |draws[k + 1..]| && draws[k + 1..][j] == r.start;
            assert draws[k + 1 + j] == r.start;
          }
        }
        r
  }

  /** A rejected start hands the remaining draws to the retry. */
  lemma PlaceRetries(tiles: Tilemap, numOfMoves: int, draws: seq<Cell>, k: nat)
    requires FindStartPosition(tiles, draws) == Some(k)
    requires !Accepts(tiles, numOfMoves, draws[k])
    ensures Place(tiles, numOfMoves, draws) == Place(tiles, numOfMoves, draws[k + 1..])
  {
    assert Place(tiles, numOfMoves, draws) ==
      (match FindStartPosition(tiles, draws)
       case None => OutOfDraws
       case Some(k) =>
         var start := draws[k];
         if Accepts(tiles, numOfMoves, start) then Placed(start, GeneratePath(tiles.allowed, start, numOfMoves))
         else Place(tiles, numOfMoves, draws[k + 1..]));
  }

  /** Skipping the draws up to a failing start does not change whether all starts fail. */
  lemma AllFailAfterFailure(tiles: Tilemap, accepts: Cell -> bool, draws: seq<Cell>, k: nat)
    requires FindStartPosition(tiles, draws) == Some(k)
    requires !accepts(draws[k])
    ensures AllFail(tiles, accepts, draws) <==> AllFail(tiles, accepts, draws[k + 1..])
  {
    var rest := draws[k + 1..];
    if AllFail(tiles, accepts, rest) {
      forall i | 0 <= i < |draws| && tiles.allowed(draws[i])
        ensures !accepts(draws[i])
      {
        if i > k { assert draws[i] == rest[i - k - 1]; }
      }
    } else {
      var j :| 0 <= j < |rest| && tiles.allowed(rest[j]) && accepts(rest[j]);
      assert rest[j] == draws[k + 1 + j];
    }
  }

  /** The start placed is the first allowed draw that the acceptance test
      accepts: the sampling loop stops at the first allowed draw, and a
      rejected start goes on to the draws after it. */
  lemma {:induction false} PlaceTakesFirstAccepted(tiles: Tilemap, numOfMoves: int, draws: seq<Cell>)
    ensures Place(tiles, numOfMoves, draws).Placed? ==>
              FirstAccepted(tiles, numOfMoves, draws, Place(tiles, numOfMoves, draws).start)
    decreases |draws|
  {
    var f := FindStartPosition(tiles, draws);
    if f.Some? {
      var k := f.value;
      if Accepts(tiles, numOfMoves, draws[k]) {
        FirstPassingAtFirstAllowed(tiles, x => Accepts(tiles, numOfMoves, x), draws, k);
      } else {
        PlaceRetries(tiles, numOfMoves, draws, k);
        PlaceTakesFirstAccepted(tiles, numOfMoves, draws[k + 1..]);
        var r := Place(tiles, numOfMoves, draws[k + 1..]);
        if r.Placed? {
          FirstPassingAfterFailure(tiles, x => Accepts(tiles, numOfMoves, x), draws, k, r.start);
        }
      }
    }
  }

  /** The retry gives up only when every allowed drawn start was rejected by the acceptance test. */
  lemma {:induction false} OutOfDrawsIffAllRejected(tiles: Tilemap, numOfMoves: int, draws: seq<Cell>)
    ensures Place(tiles, numOfMoves, draws).OutOfDraws? <==> AllRejected(tiles, numOfMoves, draws)
    decreases |draws|
  {
    var f := FindStartPosition(tiles, draws);
    if f.Some? {
      var k := f.value;
      if Accepts(tiles, numOfMoves, draws[k]) {
        assert !AllRejected(tiles, numOfMoves, draws);
      } else {
        PlaceRetries(tiles, numOfMoves, draws, k);
        OutOfDrawsIffAllRejected(tiles, numOfMoves, draws[k + 1..]);
        AllFailAfterFailure(tiles, c => Accepts(tiles, numOfMoves, c), draws, k);
      }
    }
  }

  /** With a budget of at most one cell every allowed start is accepted, so
      placement fails only when no drawn cell is allowed. */
  lemma SmallBudgetAlwaysPlaces(tiles: Tilemap, numOfMoves: int, draws: seq<Cell>)
    requires numOfMoves <= 1
    ensures Place(tiles, numOfMoves, draws).Placed? <==>
            exists i :: 0 <= i < |draws| && tiles.allowed(draws[i])
  {
    OutOfDrawsIffAllRejected(tiles, numOfMoves, draws);
    forall i | 0 <= i < |draws| && tiles.allowed(draws[i])
      ensures Accepts(tiles, numOfMoves, draws[i])
    {
      if numOfMoves == 1 {
        assert Admissible(tiles.allowed, draws[i], [draws[i]], numOfMoves);
      }
    }
  }
}
