/**
 The Relocate behaviour of the enemy (LocationGenerator): every frame in
 which `shouldUpdate` holds it places the object on a fresh allowed start
 cell whose search path is long enough, and raises `isDone`. Reading the flag
 through IsDone clears it, so each placement is reported at most once.

 The frame's random draws are supplied; when they run out before a placement
 the program would keep drawing, and the model returns None.
 */
module LocationGenerator {
  import opened Grid
  import opened PathSearch
  import opened Placement

  /** The component's fields: the done flag, the update switch, and the cell
      whose centre the object stands on (transform.position). */
  datatype Generator = Generator(isDone: bool, shouldUpdate: bool, position: Cell)

  /** Field initialisers: `isDone = false`, `shouldUpdate = true`. */
  function Init(position: Cell): (g: Generator)
    ensures !g.isDone && g.shouldUpdate
  {
    Generator(false, true, position)
  }

  /** IsDone: report the flag and clear it. */
  function IsDone(g: Generator): (r: (bool, Generator))
    ensures r.0 == g.isDone
    ensures !r.1.isDone
    ensures r.1.shouldUpdate == g.shouldUpdate && r.1.position == g.position
  {
    if g.isDone then (true, g.(isDone := false)) else (g.isDone, g)
  }

  /** GenerateLocation: retry placements until one is accepted, then move the
      object to the accepted start and raise the flag; `shouldUpdate` is never
      touched here. */
  function GenerateLocation(g: Generator, tiles: Tilemap, numOfMoves: int, draws: seq<Cell>): (r: Option<Generator>)
    ensures r.None? <==> AllRejected(tiles, numOfMoves, draws)
    ensures r.Some? ==> r.value.isDone && r.value.shouldUpdate == g.shouldUpdate
    ensures r.Some? ==> tiles.allowed(r.value.position) && r.value.position in draws
    ensures r.Some? ==> Accepts(tiles, numOfMoves, r.value.position)
    ensures r.Some? ==> FirstAccepted(tiles, numOfMoves, draws, r.value.position)
    ensures r.Some? && numOfMoves >= 1 ==>
              exists q :: Admissible(tiles.allowed, r.value.position, q, numOfMoves) && |q| == numOfMoves
  {
    OutOfDrawsIffAllRejected(tiles, numOfMoves, draws);
    PlaceTakesFirstAccepted(tiles, numOfMoves, draws);
    match Place(tiles, numOfMoves, draws)
    case OutOfDraws => None
    case Placed(start, path) =>
      assert numOfMoves >= 1 ==> Admissible(tiles.allowed, start, path, numOfMoves) && |path| == numOfMoves;
      Some(g.(isDone := true, position := start))
  }

  /** Update: place again in every frame while `shouldUpdate` holds; a
      placing frame raises the flag and leaves the updates on. */
  function Update(g: Generator, tiles: Tilemap, numOfMoves: int, draws: seq<Cell>): (r: Option<Generator>)
    ensures !g.shouldUpdate ==> r == Some(g)
    ensures g.shouldUpdate ==> r == GenerateLocation(g, tiles, numOfMoves, draws)
    ensures g.shouldUpdate ==> (r.None? <==> AllRejected(tiles, numOfMoves, draws))
    ensures r.Some? && g.shouldUpdate ==>
              r.value.isDone && r.value.shouldUpdate && FirstAccepted(tiles, numOfMoves, draws, r.value.position)
  {
    if g.shouldUpdate then GenerateLocation(g, tiles, numOfMoves, draws) else Some(g)
  }

  /** Start: place once when the component starts, whatever `shouldUpdate` says. */
  function Start(g: Generator, tiles: Tilemap, numOfMoves: int, draws: seq<Cell>): (r: Option<Generator>)
    ensures r.None? <==> AllRejected(tiles, numOfMoves, draws)
    ensures r.Some? ==> r.value.isDone && r.value.shouldUpdate == g.shouldUpdate
    ensures r.Some? ==> FirstAccepted(tiles, numOfMoves, draws, r.value.position)
  {
    GenerateLocation(g, tiles, numOfMoves, draws)
  }

  /** What happens to the component: it starts, the state machine polls
      IsDone, or a frame passes. */
  datatype Event = Started(draws: seq<Cell>) | Poll | Frame(draws: seq<Cell>)

  /** The outcome of a run: the final state, how many polls returned true,
      and how many calls placed the object. */
  datatype Tally = Tally(final: Generator, reported: nat, placements: nat)

  /** 1 for true, 0 for false. */
  function Indicator(b: bool): nat { if b then 1 else 0 }

  /** Replay the events in order; None when a frame runs out of draws. */
  function Run(g: Generator, tiles: Tilemap, numOfMoves: int, events: seq<Event>): Option<Tally>
    decreases |events|
  {
    if events == [] then Some(Tally(g, 0, 0))
    else
      match events[0]
      case Started(draws) =>
        (match Start(g, tiles, numOfMoves, draws)
         case None => None
         case Some(g') =>
           match Run(g', tiles, numOfMoves, events[1..])
           case None => None
           case Some(t) => Some(t.(placements := t.placements + 1)))
      case Poll =>
        var (b, g') := IsDone(g);
        (match Run(g', tiles, numOfMoves, events[1..])
         case None => None
         case Some(t) => Some(t.(reported := t.reported + Indicator(b))))
      case Frame(draws) =>
        (match Update(g, tiles, numOfMoves, draws)
         case None => None
         case Some(g') =>
           match Run(g', tiles, numOfMoves, events[1..])
           case None => None
           case Some(t) => Some(t.(placements := t.placements + Indicator(g.shouldUpdate))))
  }

  /** One-shot reporting: over any run, the polls that return true are no more
      than the placements made, plus one when the flag was already up. */
  lemma {:induction false} ReportsBoundedByPlacements(g: Generator, tiles: Tilemap, numOfMoves: int, events: seq<Event>)
    ensures var r := Run(g, tiles, numOfMoves, events);
            r.Some? ==> r.value.reported + Indicator(r.value.final.isDone) <= r.value.placements + Indicator(g.isDone)
    decreases |events|
  {
    if events != [] {
      match events[0]
      case Started(draws) => {
        match Start(g, tiles, numOfMoves, draws)
        case None =>
        case Some(g') =>
          ReportsBoundedByPlacements(g', tiles, numOfMoves, events[1..]);
      }
      case Poll =>
        var (b, g') := IsDone(g);
        ReportsBoundedByPlacements(g', tiles, numOfMoves, events[1..]);
      case Frame(draws) =>
        match Update(g, tiles, numOfMoves, draws)
        case None =>
        case Some(g') =>
          ReportsBoundedByPlacements(g', tiles, numOfMoves, events[1..]);
    }
  }

  /** Right after a poll returns true, further polls return false until a frame places the object again. */
  lemma PollAfterReportIsFalse(g: Generator)
    requires g.isDone
    ensures IsDone(g).0
    ensures !IsDone(IsDone(g).1).0
  {
  }
}
