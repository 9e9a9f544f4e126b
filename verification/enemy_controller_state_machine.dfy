/**
 The enemy's behaviour table (EnemyControllerStateMachine.Awake): three
 behaviour states registered in order, and four guarded transitions
 registered in order. The state-machine engine that consumes the table is not
 part of this model; the table is stated as data, and each guard as a
 predicate over what the guard observes in a frame.
 */
module EnemyControllerStateMachine {
  import Placement

  datatype Behaviour = Patrol | Chase | Relocate

  datatype Guard =
    | TargetWithinRadius   // DistanceToTarget() <= radiusToWatch
    | TargetBeyondRadius   // DistanceToTarget() > radiusToWatch
    | RelocationDraw       // Random.Range(1, probabilityToChangeLocation) == 5
    | RelocationDone       // locationGenerator.IsDone()

  datatype Transition = Transition(from: Behaviour, guard: Guard, to: Behaviour)

  /** What the guards read in one frame: the distance to the target, the
      watch radius, the value of the random draw, and the value IsDone returned. */
  datatype Observation = Observation(distance: real, radiusToWatch: real, draw: int, relocationDone: bool)

  function Holds(g: Guard, o: Observation): bool {
    match g
    case TargetWithinRadius => o.distance <= o.radiusToWatch
    case TargetBeyondRadius => o.distance > o.radiusToWatch
    case RelocationDraw => o.draw == 5
    case RelocationDone => o.relocationDone
  }

  /** The transitions of `ts` that leave `s`, in registration order. */
  function Outgoing(ts: seq<Transition>, s: Behaviour): seq<Transition>
  {
    if ts == [] then []
    else (if ts[0].from == s then [ts[0]] else []) + Outgoing(ts[1..], s)
  }

  /** Outgoing keeps exactly the transitions that leave `s`. */
  lemma {:induction false} OutgoingSelects(ts: seq<Transition>, s: Behaviour)
    ensures forall t :: t in Outgoing(ts, s) <==> t in ts && t.from == s
    decreases |ts|
  {
    if ts != [] {
      OutgoingSelects(ts[1..], s);
      assert ts == [ts[0]] + ts[1..];
    }
  }

  /** Filtering distributes over concatenation. */
  lemma {:induction false} OutgoingAppend(a: seq<Transition>, b: seq<Transition>, s: Behaviour)
    ensures Outgoing(a + b, s) == Outgoing(a, s) + Outgoing(b, s)
    decreases |a|
  {
    if a == [] {
      assert a + b == b;
    } else {
      var head := if a[0].from == s then [a[0]] else [];
      assert (a + b)[0] == a[0] && (a + b)[1..] == a[1..] + b;
      OutgoingAppend(a[1..], b, s);
      assert Outgoing(a + b, s) == head + (Outgoing(a[1..], s) + Outgoing(b, s));
    }
  }

  /** The registered states and transitions, each in registration order. */
  datatype Machine = Machine(states: seq<Behaviour>, transitions: seq<Transition>) {

    /** AddState: register a state; the first one registered is the initial state. */
    function AddState(s: Behaviour): Machine
    {
      Machine(states + [s], transitions)
    }

    /** AddTransition: register a guarded edge after all earlier ones. */
    function AddTransition(from: Behaviour, guard: Guard, to: Behaviour): Machine
    {
      Machine(states, transitions + [Transition(from, guard, to)])
    }

    /** The first registered state. */
    function Initial(): Behaviour
      requires states != []
    {
      states[0]
    }
  }

  const Empty := Machine([], [])

  /** Awake: register Patrol, Chase and Relocate, then the four guarded edges. */
  function Awake(): (m: Machine)
    ensures m.states != [] && m.Initial() == Patrol
  {
    Empty
      .AddState(Patrol)
      .AddState(Chase)
      .AddState(Relocate)
      .AddTransition(Patrol, TargetWithinRadius, Chase)
      .AddTransition(Chase, TargetBeyondRadius, Patrol)
      .AddTransition(Patrol, RelocationDraw, Relocate)
      .AddTransition(Relocate, RelocationDone, Patrol)
  }

  /** The table Awake builds is closed: every edge runs between registered
      states, and the only way into Relocate is from Patrol. */
  lemma AwakeIsClosed()
    ensures var m := Awake();
            && (forall t :: t in m.transitions ==> t.from in m.states && t.to in m.states)
            && (forall t :: t in m.transitions && t.to == Relocate ==> t.from == Patrol)
  {
    var m := Awake();
    assert m.states == [Patrol, Chase, Relocate];
    assert m.transitions == [Transition(Patrol, TargetWithinRadius, Chase), Transition(Chase, TargetBeyondRadius, Patrol),
                             Transition(Patrol, RelocationDraw, Relocate), Transition(Relocate, RelocationDone, Patrol)];
  }

  /** The first state registered is the initial state; later registrations
      keep it, and registering a state leaves the edges alone. */
  lemma AddStateKeepsInitial(m: Machine, s: Behaviour)
    ensures var m' := m.AddState(s);
            && m'.states != [] && m'.Initial() == (if m.states == [] then s else m.states[0])
            && s in m'.states && m'.transitions == m.transitions
  {
  }

  /** Registering an edge appends it to the edges leaving its source state
      and leaves the edges of every other state as they were. */
  lemma AddTransitionOrdersOutgoing(m: Machine, from: Behaviour, guard: Guard, to: Behaviour, s: Behaviour)
    ensures m.AddTransition(from, guard, to).states == m.states
    ensures var m' := m.AddTransition(from, guard, to);
            Outgoing(m'.transitions, s) ==
              Outgoing(m.transitions, s) + (if s == from then [Transition(from, guard, to)] else [])
  {
    OutgoingAppend(m.transitions, [Transition(from, guard, to)], s);
    assert Outgoing([Transition(from, guard, to)], s) == (if s == from then [Transition(from, guard, to)] else []) by {
      assert [Transition(from, guard, to)][1..] == [];
    }
  }

  /** The edges of each behaviour in the order Awake registers them: Patrol
      tries the chase before the relocation, Chase and Relocate each have a
      single edge back to Patrol. */
  lemma AwakeOutgoing()
    ensures Outgoing(Awake().transitions, Patrol) ==
              [Transition(Patrol, TargetWithinRadius, Chase), Transition(Patrol, RelocationDraw, Relocate)]
    ensures Outgoing(Awake().transitions, Chase) == [Transition(Chase, TargetBeyondRadius, Patrol)]
    ensures Outgoing(Awake().transitions, Relocate) == [Transition(Relocate, RelocationDone, Patrol)]
  {
    var t1, t2, t3, t4 := Transition(Patrol, TargetWithinRadius, Chase), Transition(Chase, TargetBeyondRadius, Patrol),
                          Transition(Patrol, RelocationDraw, Relocate), Transition(Relocate, RelocationDone, Patrol);
    var ts := Awake().transitions;
    assert ts == [t1, t2, t3, t4];
    assert ts[1..] == [t2, t3, t4];
    assert ts[1..][1..] == [t3, t4];
    assert ts[1..][1..][1..] == [t4];
    assert ts[1..][1..][1..][1..] == [];
  }

  /** Entering and leaving the chase are complementary: for every distance
      exactly one of the two guards holds. */
  lemma ChaseGuardsComplementary(o: Observation)
    ensures Holds(TargetWithinRadius, o) != Holds(TargetBeyondRadius, o)
  {
  }

  /* ---------------- The relocation draw ---------------- */

  /** The values Random.Range(lo, hi) can return, in increasing order; meant
      only for lo < hi (for lo == hi the call returns lo, see Placement.InRange). */
  function Outcomes(lo: int, hi: int): seq<int>
    decreases hi - lo
  {
    if hi <= lo then [] else Outcomes(lo, hi - 1) + [hi - 1]
  }

  /** How many entries of `ds` equal `target`. */
  function Count(ds: seq<int>, target: int): nat
  {
    if ds == [] then 0
    else Count(ds[..|ds| - 1], target) + (if ds[|ds| - 1] == target then 1 else 0)
  }

  /** The outcomes are exactly the values in range, each once. */
  lemma {:induction false} OutcomesAreTheRange(lo: int, hi: int)
    requires lo < hi
    ensures |Outcomes(lo, hi)| == hi - lo
    ensures forall v :: v in Outcomes(lo, hi) <==> Placement.InRange(lo, hi, v)
    ensures forall v :: lo <= v < hi ==> Count(Outcomes(lo, hi), v) == 1
    decreases hi - lo
  {
    var os := Outcomes(lo, hi);
    if hi - 1 > lo {
      OutcomesAreTheRange(lo, hi - 1);
      assert os[..|os| - 1] == Outcomes(lo, hi - 1);
      forall v | lo <= v < hi ensures Count(os, v) == 1 {
        if v < hi - 1 {
          assert v in Outcomes(lo, hi - 1);
        } else {
          assert v !in Outcomes(lo, hi - 1);
          CountAbsent(Outcomes(lo, hi - 1), v);
        }
      }
    } else {
      assert Outcomes(lo, hi - 1) == [];
      assert os == [lo];
      assert os[..0] == [];
    }
  }

  lemma {:induction false} CountAbsent(ds: seq<int>, v: int)
    requires v !in ds
    ensures Count(ds, v) == 0
    decreases |ds|
  {
    if ds != [] {
      assert ds[..|ds| - 1] <= ds;
      CountAbsent(ds[..|ds| - 1], v);
    }
  }

  /** The relocation guard draws from Random.Range(1, n) with n =
      probabilityToChangeLocation; the upper end is exclusive, so there are
      n - 1 equally likely outcomes, and the winning value 5 is among them only
      when n > 5. The chance per frame is 1/(n - 1), and zero for n <= 5. */
  lemma RelocationDrawOdds(n: int)
    requires n >= 2
    ensures |Outcomes(1, n)| == n - 1
    ensures Count(Outcomes(1, n), 5) == (if n > 5 then 1 else 0)
  {
    OutcomesAreTheRange(1, n);
    if n <= 5 {
      assert 5 !in Outcomes(1, n);
      CountAbsent(Outcomes(1, n), 5);
    }
  }
}
