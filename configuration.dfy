/** The state contract the solver searches over (puzzles.common.solver.Configuration): a
    goal test and a list of neighbours. The three puzzles of the repository are its only
    implementations, so the contract is a closed union with one case per puzzle. */
module Configuration {
  import opened Common
  import Clock
  import Strings
  import Hoppers

  datatype Config =
    | ClockState(clock: Clock.ClockConfig)
    | StringsState(strings: Strings.StringsConfig)
    | HoppersState(hoppers: Hoppers.HoppersConfig)

  /** A Hoppers board is rectangular with its derived frog list; the other puzzles have no
      condition. */
  predicate WellFormed(c: Config)
  {
    c.HoppersState? ==> Hoppers.Valid(c.hoppers)
  }

  /** `isSolution` of the underlying puzzle. */
  predicate IsSolution(c: Config)
  {
    match c
    case ClockState(k) => Clock.IsSolution(k)
    case StringsState(s) => Strings.IsSolution(s)
    case HoppersState(h) => Hoppers.Solved(h)
  }

  /** The configurations `getNeighbors` lists, as a set. */
  function Neighbors(c: Config): set<Config>
  {
    match c
    case ClockState(k) => set n | n in Clock.Neighbors(k) :: ClockState(n)
    case StringsState(s) => set n | n in Strings.Neighbors(s) :: StringsState(n)
    case HoppersState(h) => if Hoppers.Valid(h) then set n | n in Hoppers.Neighbors(h) :: HoppersState(n) else {}
  }

  /** The length of the list `getNeighbors` returns (it may repeat a configuration). */
  function NeighborCount(c: Config): nat
  {
    match c
    case ClockState(k) => |Clock.Neighbors(k)|
    case StringsState(s) => |Strings.Neighbors(s)|
    case HoppersState(h) => if Hoppers.Valid(h) then Hoppers.JumpCount(h) else 0
  }

  /** Java `equals` between two configurations: false across puzzle kinds (`instanceof`),
      otherwise the puzzle's own `equals`. */
  predicate JavaEquals(a: Config, b: Config)
  {
    match (a, b)
    case (ClockState(x), ClockState(y)) => Clock.Equals(x, y)
    case (StringsState(x), StringsState(y)) => Strings.Equals(x, y)
    case (HoppersState(x), HoppersState(y)) => Hoppers.Equals(x, y)
    case _ => false
  }

  /** The dispatch of `getNeighbors` to the underlying puzzle. */
  method GetNeighbors(c: Config) returns (ns: seq<Config>)
    requires WellFormed(c)
    ensures (set n | n in ns) == Neighbors(c)
    ensures |ns| == NeighborCount(c)
  {
    match c
    case ClockState(k) =>
      var l := Clock.Neighbors(k);
      ns := [ClockState(l[0]), ClockState(l[1])];
      Clock.NeighborsShape(k);
    case StringsState(s) =>
      var l := Strings.GetNeighbors(s);
      ns := Lift(l, n => StringsState(n));
    case HoppersState(h) =>
      var l := Hoppers.GetNeighbors(h);
      ns := Lift(l, n => HoppersState(n));
  }

  /** The list `l` with every entry wrapped by `f`. */
  method Lift<T>(l: seq<T>, f: T -> Config) returns (ns: seq<Config>)
    ensures |ns| == |l|
    ensures (set n | n in ns) == set x | x in l :: f(x)
  {
    ns := [];
    for i := 0 to |l|
      invariant |ns| == i
      invariant forall k :: 0 <= k < i ==> ns[k] == f(l[k])
    {
      ns := ns + [f(l[i])];
    }
    assert forall n :: n in ns ==> exists k :: 0 <= k < |l| && n == f(l[k]);
  }

  /** The dispatch of `isSolution` to the underlying puzzle. */
  method CheckSolution(c: Config) returns (solved: bool)
    requires WellFormed(c)
    ensures solved <==> IsSolution(c)
  {
    match c
    case ClockState(k) => solved := Clock.IsSolution(k);
    case StringsState(s) => solved := Strings.IsSolution(s);
    case HoppersState(h) => solved := Hoppers.IsSolution(h);
  }

  /** `x` is well-formed and its neighbours lie in `space`. */
  ghost predicate ClosedAt(space: set<Config>, x: Config)
  {
    WellFormed(x) && Neighbors(x) <= space
  }

  /** A set of well-formed configurations that holds every neighbour of its members. (The
      trigger keeps the solver from following neighbours of neighbours unasked.) */
  ghost predicate Closed(space: set<Config>)
  {
    forall x {:trigger ClosedAt(space, x)} :: x in space ==> ClosedAt(space, x)
  }

  /** A finite set of configurations containing `c` and closed under moves: every
      configuration of the same clock and goal, of the same length and goal, or reachable
      by jumps. */
  ghost function Space(c: Config): set<Config>
    requires WellFormed(c)
  {
    match c
    case ClockState(k) => set x | x in Clock.Space(k) :: ClockState(x)
    case StringsState(s) => set x | x in Strings.Space(s) :: StringsState(x)
    case HoppersState(h) => set x | x in Hoppers.Reach(h) :: HoppersState(x)
  }

  lemma SpaceClosed(c: Config)
    requires WellFormed(c)
    ensures c in Space(c) && Closed(Space(c))
  {
    match c
    case ClockState(k) =>
      Clock.SpaceClosed(k);
    case StringsState(s) =>
      Strings.SpaceClosed(s);
    case HoppersState(h) =>
      Hoppers.ReachClosed(h);
      forall x | x in Space(c) ensures ClosedAt(Space(c), x) {
        assert x.HoppersState? && x.hoppers in Hoppers.Reach(h);
      }
  }

  /** Java `hashCode` of a configuration: the puzzle's own, with `String.hashCode` and
      `Coordinates.hashCode` as parameters. */
  function JavaHash(c: Config, stringHash: seq<Strings.char16> -> int32, coordHash: Coord -> int32): int32
  {
    match c
    case ClockState(k) => Clock.HashCode(k)
    case StringsState(s) => Strings.HashCode(s, stringHash)
    case HoppersState(h) => Hoppers.HashSum(h.frogs, coordHash)
  }

  /** Within the space of one search, Java `equals` is value equality, and the puzzle's
      `hashCode` agrees with it; so a map keyed by value models the predecessor `HashMap`. */
  lemma SpaceEqualityIsIdentity(c: Config, x: Config, y: Config,
                                stringHash: seq<Strings.char16> -> int32, coordHash: Coord -> int32)
    requires WellFormed(c) && x in Space(c) && y in Space(c)
    ensures JavaEquals(x, y) <==> x == y
    ensures JavaEquals(x, y) ==> JavaHash(x, stringHash, coordHash) == JavaHash(y, stringHash, coordHash)
  {
    match c
    case ClockState(k) =>
      Clock.EqualsConsistent(x.clock, y.clock);
    case StringsState(s) =>
      assert x.strings.end == s.end && y.strings.end == s.end;
      Strings.EqualsConsistent(x.strings, y.strings, stringHash);
    case HoppersState(h) =>
      Hoppers.ReachClosed(h);
      Hoppers.EqualsIsEquality(x.hoppers, y.hoppers);
      if JavaEquals(x, y) {
        Hoppers.HashConsistent(x.hoppers, y.hoppers, coordHash);
      }
  }
}
