/**
 The event-driven variant of the location generator
 (LocationGeneratorWithEventTrigger): it places the object when the cave
 generator announces completion and in every frame while `shouldUpdate`
 holds. A successful placement raises `isDone` for good and switches
 `shouldUpdate` off, so frames stop placing; IsDone only reads the flag.

 As in the one-shot variant, each call's random draws are supplied and None
 stands for running out of them before a placement.
 */
module LocationGeneratorWithEventTrigger {
  import opened Grid
  import opened PathSearch
  import opened Placement

  datatype Generator = Generator(isDone: bool, shouldUpdate: bool, position: Cell)

  /** Field initialisers: `isDone = false`, `shouldUpdate = true`. */
  function Init(position: Cell): (g: Generator)
    ensures Latched(g) && !g.isDone
  {
    Generator(false, true, position)
  }

  /** IsDone: a plain read of the flag; on a latched component it reports
      whether the per-frame updates have stopped. */
  function IsDone(g: Generator): (r: bool)
    ensures Latched(g) ==> (r <==> !g.shouldUpdate)
  {
    g.isDone
  }

  /** The flag and the update switch move together: the component keeps
      updating exactly until it is done. */
  predicate Latched(g: Generator) {
    g.isDone == !g.shouldUpdate
  }

  /** GenerateLocation: retry placements until one is accepted, then move the
      object there, raise `isDone` and switch `shouldUpdate` off. */
  function GenerateLocation(g: Generator, tiles: Tilemap, numOfMoves: int, draws: seq<Cell>): (r: Option<Generator>)
    ensures r.None? <==> AllRejected(tiles, numOfMoves, draws)
    ensures r.Some? ==> r.value.isDone && !r.value.shouldUpdate
    ensures r.Some? ==> tiles.allowed(r.value.position) && r.value.position in draws
    ensures r.Some? ==> Accepts(tiles, numOfMoves, r.value.position)
    ensures r.Some? ==> FirstAccepted(tiles, numOfMoves, draws, r.value.position)
    ensures r.Some? && numOfMoves >= 1 ==>
              exists q :: Admissible(tiles.allowed, r.value.position, q, numOfMoves) && |q| == numOfMoves
  {
    OutOfDrawsIffAllRejected(tiles, numOfMoves, draws);
    PlaceTakesFirstAccepted(tiles, numOfMoves, draws);
    match Place(tiles, numOfMoves, draws)
    case OutOfDraws => None
    case Placed(start, path) =>
      assert numOfMoves >= 1 ==> Admissible(tiles.allowed, start, path, numOfMoves) && |path| == numOfMoves;
      Some(g.(isDone := true, shouldUpdate := false, position := start))
  }

  /** Update: place in a frame only while `shouldUpdate` holds; a placing
      frame ends the updates for good. */
  function Update(g: Generator, tiles: Tilemap, numOfMoves: int, draws: seq<Cell>): (r: Option<Generator>)
    ensures !g.shouldUpdate ==> r == Some(g)
    ensures g.shouldUpdate ==> r == GenerateLocation(g, tiles, numOfMoves, draws)
    ensures r.Some? && g.shouldUpdate ==>
              r.value.isDone && !r.value.shouldUpdate && FirstAccepted(tiles, numOfMoves, draws, r.value.position)
  {
    if g.shouldUpdate then GenerateLocation(g, tiles, numOfMoves, draws) else Some(g)
  }

  /** HandleGenerationComplete: place as soon as the cave is finished,
      whatever `shouldUpdate` says. The tilemap it re-reads from the cave
      generator is the one it was configured with. */
  function HandleGenerationComplete(g: Generator, tiles: Tilemap, numOfMoves: int, draws: seq<Cell>): (r: Option<Generator>)
    ensures r.None? <==> AllRejected(tiles, numOfMoves, draws)
    ensures r.Some? ==> r.value.isDone && !r.value.shouldUpdate
    ensures r.Some? ==> FirstAccepted(tiles, numOfMoves, draws, r.value.position)
  {
    GenerateLocation(g, tiles, numOfMoves, draws)
  }

  /** What reaches the component: a frame, or the cave generator's completion event. */
  datatype Event = Frame(draws: seq<Cell>) | GenerationComplete(draws: seq<Cell>)

  function Step(g: Generator, tiles: Tilemap, numOfMoves: int, e: Event): Option<Generator>
  {
    match e
    case Frame(draws) => Update(g, tiles, numOfMoves, draws)
    case GenerationComplete(draws) => HandleGenerationComplete(g, tiles, numOfMoves, draws)
  }

  /** Replay the events in order; None when some call runs out of draws. */
  function Run(g: Generator, tiles: Tilemap, numOfMoves: int, events: seq<Event>): Option<Generator>
    decreases |events|
  {
    if events == [] then Some(g)
    else
      match Step(g, tiles, numOfMoves, events[0])
      case None => None
      case Some(g') => Run(g', tiles, numOfMoves, events[1..])
  }

  /** `isDone` is only ever set: once IsDone returns true it returns true after any run. */
  lemma {:induction false} DoneIsMonotone(g: Generator, tiles: Tilemap, numOfMoves: int, events: seq<Event>)
    requires IsDone(g)
    ensures Run(g, tiles, numOfMoves, events).Some? ==> IsDone(Run(g, tiles, numOfMoves, events).value)
    decreases |events|
  {
    if events != [] {
      match Step(g, tiles, numOfMoves, events[0])
      case None =>
      case Some(g') => DoneIsMonotone(g', tiles, numOfMoves, events[1..]);
    }
  }

  /** Every run from a latched state (the initial one among them) ends latched. */
  lemma {:induction false} RunKeepsLatch(g: Generator, tiles: Tilemap, numOfMoves: int, events: seq<Event>)
    requires Latched(g)
    ensures Run(g, tiles, numOfMoves, events).Some? ==> Latched(Run(g, tiles, numOfMoves, events).value)
    decreases |events|
  {
    if events != [] {
      match Step(g, tiles, numOfMoves, events[0])
      case None =>
      case Some(g') => RunKeepsLatch(g', tiles, numOfMoves, events[1..]);
    }
  }

  /** After a placement, frames change nothing: the update gate stays shut and
      the object stays where it was put. */
  lemma {:induction false} FramesAfterPlacementAreInert(g: Generator, tiles: Tilemap, numOfMoves: int, events: seq<Event>)
    requires !g.shouldUpdate
    requires forall i :: 0 <= i < |events| ==> events[i].Frame?
    ensures Run(g, tiles, numOfMoves, events) == Some(g)
    decreases |events|
  {
    if events != [] {
      assert Step(g, tiles, numOfMoves, events[0]) == Some(g);
      FramesAfterPlacementAreInert(g, tiles, numOfMoves, events[1..]);
    }
  }
}
