/**
 The constrained placement search: an exhaustive depth-first search from a
 start cell over allowed 4-connected cells that never revisits a cell of the
 current path, is bounded by a budget counting cells (start included), tries
 neighbours up, down, left, right, and keeps the first strictly longest path.

 `Dfs` and `Explore` follow the recursive search with its `ref bestPath`
 threaded through as an argument and returned. `Visits` is an independent
 reference definition: the paths the search reaches, in the order it reaches
 them. The lemmas show that the search returns the first longest of those,
 and that they are exactly the admissible paths.
 */
module PathSearch {
  import opened Grid

  type Path = seq<Cell>

  function Last(p: Path): Cell
    requires |p| >= 1
  {
    p[|p| - 1]
  }

  /** No cell occurs twice. */
  predicate Simple(p: Path) {
    forall i, j :: 0 <= i < j < |p| ==> p[i] != p[j]
  }

  /** Consecutive cells are 4-adjacent. */
  predicate Connected(p: Path) {
    forall i :: 0 <= i < |p| - 1 ==> Adjacent(p[i], p[i + 1])
  }

  /** Every cell after the start is an allowed tile; the start itself is never checked by the search. */
  predicate AllowedAfterStart(allowed: Oracle, p: Path) {
    forall i :: 1 <= i < |p| ==> allowed(p[i])
  }

  /** A simple, connected path of allowed cells leaving `start`. */
  predicate PathFrom(allowed: Oracle, start: Cell, p: Path) {
    && |p| >= 1
    && p[0] == start
    && Simple(p)
    && Connected(p)
    && AllowedAfterStart(allowed, p)
  }

  /** A path the search may return for a budget of `moves` cells. */
  predicate Admissible(allowed: Oracle, start: Cell, p: Path, moves: int) {
    PathFrom(allowed, start, p) && |p| <= moves
  }

  /** Remaining depth: how many more cells the path may still take, plus one. */
  function Budget(cur: Path, maxDepth: int): nat {
    if |cur| > maxDepth then 0 else maxDepth - |cur| + 1
  }

  /** DFS: give up when the current path is over the depth limit, otherwise
      record it when strictly longer than the best so far, then try each allowed
      neighbour of its last cell. */
  function Dfs(allowed: Oracle, cur: Path, best: Path, maxDepth: int): (r: Path)
    requires |cur| >= 1
    ensures |best| <= |r|
    ensures r == best || (cur <= r && |r| <= maxDepth)
    decreases Budget(cur, maxDepth), 1
  {
    if |cur| > maxDepth then best
    else
      var best' := if |cur| > |best| then cur else best;
      Explore(allowed, cur, Neighbors(allowed, Last(cur)), best', maxDepth)
  }

  /** The `foreach` over the neighbours: extend the current path by every
      neighbour it does not already contain, in order. */
  function Explore(allowed: Oracle, cur: Path, ns: seq<Cell>, best: Path, maxDepth: int): (r: Path)
    requires 1 <= |cur| <= maxDepth
    ensures |best| <= |r|
    ensures r == best || (cur <= r && |r| <= maxDepth)
    decreases Budget(cur, maxDepth), 0, |ns|
  {
    if ns == [] then best
    else
      var best' := if ns[0] !in cur then Dfs(allowed, cur + [ns[0]], best, maxDepth) else best;
      Explore(allowed, cur, ns[1..], best', maxDepth)
  }

  /** GeneratePath: the search from `start` with an empty best path and a
      budget of `moves` cells. */
  function GeneratePath(allowed: Oracle, start: Cell, moves: int): (r: Path)
    ensures moves <= 0 ==> r == []
    ensures moves >= 1 ==> Admissible(allowed, start, r, moves)
    ensures forall q :: Admissible(allowed, start, q, moves) ==> |q| <= |r|
  {
    GeneratePathFacts(allowed, start, moves);
    Dfs(allowed, [start], [], moves)
  }

  /* ---------------- Reference definition: the visiting order ---------------- */

  /** Every path the search reaches from `cur`, in preorder. */
  function Visits(allowed: Oracle, cur: Path, maxDepth: int): seq<Path>
    requires |cur| >= 1
    decreases Budget(cur, maxDepth), 1
  {
    if |cur| > maxDepth then []
    else [cur] + VisitsAll(allowed, cur, Neighbors(allowed, Last(cur)), maxDepth)
  }

  function VisitsAll(allowed: Oracle, cur: Path, ns: seq<Cell>, maxDepth: int): seq<Path>
    requires 1 <= |cur| <= maxDepth
    decreases Budget(cur, maxDepth), 0, |ns|
  {
    if ns == [] then []
    else
      (if ns[0] !in cur then Visits(allowed, cur + [ns[0]], maxDepth) else [])
      + VisitsAll(allowed, cur, ns[1..], maxDepth)
  }

  /** Scan `ps` in order, replacing `best` only by a strictly longer path. */
  function Longest(ps: seq<Path>, best: Path): Path
  {
    if ps == [] then best
    else Longest(ps[1..], if |ps[0]| > |best| then ps[0] else best)
  }

  /** The first element of `ps` of maximal length is `r`. */
  predicate FirstLongest(ps: seq<Path>, r: Path) {
    exists k :: 0 <= k < |ps| && ps[k] == r
      && (forall i :: 0 <= i < |ps| ==> |ps[i]| <= |r|)
      && (forall i :: 0 <= i < k ==> |ps[i]| < |r|)
  }

  /* ---------------- Lemmas ---------------- */

  lemma {:induction false} LongestAppend(a: seq<Path>, b: seq<Path>, best: Path)
    ensures Longest(a + b, best) == Longest(b, Longest(a, best))
    decreases |a|
  {
    if a == [] {
      assert a + b == b;
    } else {
      assert (a + b)[1..] == a[1..] + b;
      LongestAppend(a[1..], b, if |a[0]| > |best| then a[0] else best);
    }
  }

  /** The strict-improvement scan keeps the first path of maximal length,
      or `best` when nothing in `ps` is longer. */
  lemma {:induction false} LongestIsFirstMaximal(ps: seq<Path>, best: Path)
    ensures var r := Longest(ps, best);
            && |best| <= |r|
            && (forall i :: 0 <= i < |ps| ==> |ps[i]| <= |r|)
            && (r == best || (|best| < |r| && FirstLongest(ps, r)))
    decreases |ps|
  {
    if ps != [] {
      var b' := if |ps[0]| > |best| then ps[0] else best;
      LongestIsFirstMaximal(ps[1..], b');
      var r := Longest(ps, best);
      assert r == Longest(ps[1..], b');
      forall i | 0 <= i < |ps| ensures |ps[i]| <= |r| {
        if i > 0 { assert ps[i] == ps[1..][i - 1]; }
      }
      if r != best {
        if r == b' {
          assert ps[0] == r;
          assert FirstLongest(ps, r);
        } else {
          var k :| 0 <= k < |ps[1..]| && ps[1..][k] == r
                   && (forall i :: 0 <= i < |ps[1..]| ==> |ps[1..][i]| <= |r|)
                   && (forall i :: 0 <= i < k ==> |ps[1..][i]| < |r|);
          assert ps[k + 1] == r;
          forall i | 0 <= i < k + 1 ensures |ps[i]| < |r| {
            if i > 0 { assert ps[i] == ps[1..][i - 1]; }
          }
          assert FirstLongest(ps, r);
        }
      }
    }
  }

  /** The search computes the strict-improvement scan over its visiting order. */
  lemma {:induction false} DfsScansVisits(allowed: Oracle, cur: Path, best: Path, maxDepth: int)
    requires |cur| >= 1
    ensures Dfs(allowed, cur, best, maxDepth) == Longest(Visits(allowed, cur, maxDepth), best)
    decreases Budget(cur, maxDepth), 1
  {
    if |cur| <= maxDepth {
      var ns := Neighbors(allowed, Last(cur));
      var best' := if |cur| > |best| then cur else best;
      ExploreScansVisits(allowed, cur, ns, best', maxDepth);
      LongestAppend([cur], VisitsAll(allowed, cur, ns, maxDepth), best);
      assert Longest([cur], best) == best';
    }
  }

  lemma {:induction false} ExploreScansVisits(allowed: Oracle, cur: Path, ns: seq<Cell>, best: Path, maxDepth: int)
    requires 1 <= |cur| <= maxDepth
    ensures Explore(allowed, cur, ns, best, maxDepth) == Longest(VisitsAll(allowed, cur, ns, maxDepth), best)
    decreases Budget(cur, maxDepth), 0, |ns|
  {
    if ns != [] {
      var here := if ns[0] !in cur then Visits(allowed, cur + [ns[0]], maxDepth) else [];
      var best' := if ns[0] !in cur then Dfs(allowed, cur + [ns[0]], best, maxDepth) else best;
      if ns[0] !in cur {
        DfsScansVisits(allowed, cur + [ns[0]], best, maxDepth);
      }
      assert best' == Longest(here, best);
      ExploreScansVisits(allowed, cur, ns[1..], best', maxDepth);
      LongestAppend(here, VisitsAll(allowed, cur, ns[1..], maxDepth), best);
    }
  }

  /** Appending an allowed neighbour of the last cell that is not yet on the path keeps it a path. */
  lemma ExtendPath(allowed: Oracle, start: Cell, cur: Path, n: Cell)
    requires PathFrom(allowed, start, cur)
    requires Adjacent(Last(cur), n) && allowed(n) && n !in cur
    ensures PathFrom(allowed, start, cur + [n])
  {
    var p := cur + [n];
    forall i, j | 0 <= i < j < |p| ensures p[i] != p[j] {
      if j == |cur| { assert p[i] in cur; }
    }
  }

  /** Everything the search visits extends the current path within the depth
      limit, and is a path when the current one is. */
  lemma {:induction false} VisitsSound(allowed: Oracle, cur: Path, maxDepth: int)
    requires |cur| >= 1
    ensures forall p :: p in Visits(allowed, cur, maxDepth) ==>
              cur <= p && |p| <= maxDepth
              && (PathFrom(allowed, cur[0], cur) ==> PathFrom(allowed, cur[0], p))
    decreases Budget(cur, maxDepth), 1
  {
    if |cur| <= maxDepth {
      NeighborsSpec(allowed, Last(cur));
      VisitsAllSound(allowed, cur, Neighbors(allowed, Last(cur)), maxDepth);
    }
  }

  lemma {:induction false} VisitsAllSound(allowed: Oracle, cur: Path, ns: seq<Cell>, maxDepth: int)
    requires 1 <= |cur| <= maxDepth
    requires forall n :: n in ns ==> Adjacent(Last(cur), n) && allowed(n)
    ensures forall p :: p in VisitsAll(allowed, cur, ns, maxDepth) ==>
              cur <= p && |p| <= maxDepth
              && (PathFrom(allowed, cur[0], cur) ==> PathFrom(allowed, cur[0], p))
    decreases Budget(cur, maxDepth), 0, |ns|
  {
    if ns != [] {
      VisitsAllSound(allowed, cur, ns[1..], maxDepth);
      if ns[0] !in cur {
        var next := cur + [ns[0]];
        VisitsSound(allowed, next, maxDepth);
        if PathFrom(allowed, cur[0], cur) {
          ExtendPath(allowed, cur[0], cur, ns[0]);
        }
        forall p | p in Visits(allowed, next, maxDepth)
          ensures cur <= p
        {
          assert next <= p;
          assert p[..|cur|] == next[..|cur|] == cur;
        }
      }
    }
  }

  /** The subtree under a neighbour that is not on the path is part of the exploration. */
  lemma {:induction false} VisitsAllCovers(allowed: Oracle, cur: Path, ns: seq<Cell>, n: Cell, maxDepth: int)
    requires 1 <= |cur| <= maxDepth
    requires n in ns && n !in cur
    ensures forall p :: p in Visits(allowed, cur + [n], maxDepth) ==> p in VisitsAll(allowed, cur, ns, maxDepth)
    decreases |ns|
  {
    if ns[0] != n {
      VisitsAllCovers(allowed, cur, ns[1..], n, maxDepth);
    }
  }

  /** Every path extending the current one within the depth limit is visited. */
  lemma {:induction false} VisitsComplete(allowed: Oracle, cur: Path, maxDepth: int)
    requires |cur| >= 1 && PathFrom(allowed, cur[0], cur)
    ensures forall q :: cur <= q && PathFrom(allowed, cur[0], q) && |q| <= maxDepth ==>
              q in Visits(allowed, cur, maxDepth)
    decreases Budget(cur, maxDepth)
  {
    forall q | cur <= q && PathFrom(allowed, cur[0], q) && |q| <= maxDepth
      ensures q in Visits(allowed, cur, maxDepth)
    {
      if q != cur {
        assert |cur| < |q|;
        var n := q[|cur|];
        var next := cur + [n];
        assert Adjacent(q[|cur| - 1], q[|cur|]);
        assert Last(cur) == q[|cur| - 1];
        assert allowed(n);
        assert n !in cur by {
          forall i | 0 <= i < |cur| ensures cur[i] != n {
            assert cur[i] == q[i];
          }
        }
        assert q[..|cur| + 1] == next;
        NeighborsSpec(allowed, Last(cur));
        ExtendPath(allowed, cur[0], cur, n);
        VisitsComplete(allowed, next, maxDepth);
        assert q in Visits(allowed, next, maxDepth);
        VisitsAllCovers(allowed, cur, Neighbors(allowed, Last(cur)), n, maxDepth);
      }
    }
  }

  /** From a start cell with budget `moves`, the search visits exactly the admissible paths. */
  lemma VisitsAreAdmissible(allowed: Oracle, start: Cell, moves: int)
    ensures forall q :: q in Visits(allowed, [start], moves) <==> Admissible(allowed, start, q, moves)
  {
    assert PathFrom(allowed, start, [start]);
    VisitsSound(allowed, [start], moves);
    VisitsComplete(allowed, [start], moves);
    forall q | Admissible(allowed, start, q, moves) ensures [start] <= q {
      assert q[..1] == [start];
    }
  }

  lemma GeneratePathFacts(allowed: Oracle, start: Cell, moves: int)
    ensures var r := Dfs(allowed, [start], [], moves);
            && (moves <= 0 ==> r == [])
            && (moves >= 1 ==> Admissible(allowed, start, r, moves))
            && (forall q :: Admissible(allowed, start, q, moves) ==> |q| <= |r|)
            && (moves >= 1 ==> FirstLongest(Visits(allowed, [start], moves), r))
  {
    var vs := Visits(allowed, [start], moves);
    var r := Dfs(allowed, [start], [], moves);
    DfsScansVisits(allowed, [start], [], moves);
    LongestIsFirstMaximal(vs, []);
    VisitsAreAdmissible(allowed, start, moves);
    if moves >= 1 {
      assert vs[0] == [start];
      assert r != [];
      assert FirstLongest(vs, r);
      var k :| 0 <= k < |vs| && vs[k] == r;
      assert r in vs;
    }
    forall q | Admissible(allowed, start, q, moves) ensures |q| <= |r| {
      assert q in vs;
    }
  }

  /** Tie-breaking: the returned path is the first path of maximal length in
      the order the search visits paths (neighbours tried up, down, left, right). */
  lemma GeneratePathIsFirstFound(allowed: Oracle, start: Cell, moves: int)
    requires moves >= 1
    ensures FirstLongest(Visits(allowed, [start], moves), GeneratePath(allowed, start, moves))
  {
    GeneratePathFacts(allowed, start, moves);
  }

  /** The acceptance test `path.Count >= numOfMoves` holds exactly when an
      admissible path of exactly `moves` cells exists, and then the path has
      exactly `moves` cells. */
  lemma AcceptedIffFullPathExists(allowed: Oracle, start: Cell, moves: int)
    ensures |GeneratePath(allowed, start, moves)| >= moves <==>
            (moves <= 0 || exists q :: Admissible(allowed, start, q, moves) && |q| == moves)
    ensures moves >= 1 && |GeneratePath(allowed, start, moves)| >= moves ==>
            |GeneratePath(allowed, start, moves)| == moves
  {
    var r := GeneratePath(allowed, start, moves);
    if moves >= 1 && |r| >= moves {
      assert Admissible(allowed, start, r, moves) && |r| == moves;
    }
  }
}
