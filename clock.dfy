/** The clock puzzle (ClockConfig.java): a clock face with `hours` positions, the hand at
    `start`, and the goal hour `end`. One move turns the hand one hour forwards or back. */
module Clock {
  import opened Common

  datatype ClockConfig = ClockConfig(hours: int32, start: int32, end: int32)

  /** The private copy constructor: same clock and goal, the hand at `current`. */
  function At(other: ClockConfig, current: int32): ClockConfig
  {
    ClockConfig(other.hours, current, other.end)
  }

  predicate IsSolution(c: ClockConfig)
  {
    c.start == c.end
  }

  /** `getNeighbors`: the two configurations one hour back and one hour forward, with the
      wrap from 1 to `hours` and from `hours` to 1, in the source's list order. */
  function Neighbors(c: ClockConfig): seq<ClockConfig>
  {
    if c.start == 1 then
      [At(c, c.hours), At(c, Wrap32(c.start + 1))]
    else if c.start == c.hours then
      [At(c, Wrap32(c.start - 1)), At(c, 1)]
    else
      [At(c, Wrap32(c.start - 1)), At(c, Wrap32(c.start + 1))]
  }

  /** `equals` looks at the hand only. */
  predicate Equals(a: ClockConfig, b: ClockConfig)
  {
    a.start == b.start
  }

  /** `hashCode` is `start + end + hours` in 32-bit arithmetic. */
  function HashCode(c: ClockConfig): int32
  {
    Wrap32(c.start + c.end + c.hours)
  }

  /** The hour after `s` on a clock with `hours` positions numbered 1..hours. */
  function CycleNext(hours: int, s: int): int
    requires hours >= 1
  {
    s % hours + 1
  }

  /** The hour before `s` on a clock with `hours` positions numbered 1..hours. */
  function CyclePrev(hours: int, s: int): int
    requires hours >= 1
  {
    (s - 2) % hours + 1
  }

  /** There are always exactly two neighbours; each keeps the clock and the goal and only
      moves the hand, to the values the three branches of the source choose. */
  lemma NeighborsShape(c: ClockConfig)
    ensures |Neighbors(c)| == 2
    ensures forall n :: n in Neighbors(c) ==> n.hours == c.hours && n.end == c.end
    ensures c.start == 1 ==> Neighbors(c)[0].start == c.hours && Neighbors(c)[1].start == 2
    ensures c.start != 1 && c.start == c.hours ==>
              Neighbors(c)[0].start == Wrap32(c.hours - 1) && Neighbors(c)[1].start == 1
    ensures c.start != 1 && c.start != c.hours ==>
              Neighbors(c)[0].start == Wrap32(c.start - 1) && Neighbors(c)[1].start == Wrap32(c.start + 1)
  {
  }

  /** On a proper clock (at least two hours, the hand on the face) the neighbours are the
      cyclic predecessor and successor of the hand, so the hand never leaves the face. */
  lemma NeighborsAreCyclic(c: ClockConfig)
    requires c.hours >= 2 && 1 <= c.start <= c.hours
    ensures Neighbors(c)[0].start == CyclePrev(c.hours, c.start)
    ensures Neighbors(c)[1].start == CycleNext(c.hours, c.start)
    ensures forall n :: n in Neighbors(c) ==> 1 <= n.start <= c.hours
  {
    if c.start == 1 {
      ModUnique(c.start - 2, c.hours, -1, c.hours - 1);
      ModUnique(c.start, c.hours, 0, c.start);
    } else if c.start == c.hours {
      ModUnique(c.start, c.hours, 1, 0);
      ModUnique(c.start - 2, c.hours, 0, c.start - 2);
    } else {
      ModUnique(c.start, c.hours, 0, c.start);
      ModUnique(c.start - 2, c.hours, 0, c.start - 2);
    }
  }

  /** Euclidean remainder: `x % m` is the `r` of any decomposition `x == m * q + r`. */
  lemma ModUnique(x: int, m: int, q: int, r: int)
    requires m > 0 && 0 <= r < m && x == m * q + r
    ensures x % m == r
  {
    var q', r' := x / m, x % m;
    assert x == m * q' + r';
    var d := q - q';
    assert m * d == r' - r by {
      assert m * q - m * q' == m * d;
    }
    if d > 0 {
      MulAtLeast(m, d);
    } else if d < 0 {
      MulAtLeast(m, -d);
    }
  }

  lemma MulAtLeast(m: int, d: int)
    requires m > 0 && d > 0
    ensures m * d >= m && m * (-d) <= -m
    decreases d
  {
    if d > 1 {
      MulAtLeast(m, d - 1);
      assert m * d == m * (d - 1) + m;
      assert m * (-d) == m * (-(d - 1)) - m;
    }
  }

  /** A configuration is solved exactly when it equals the goal configuration the driver
      builds, `new ClockConfig(hours, end, end)`. */
  lemma SolutionIsGoal(c: ClockConfig)
    ensures IsSolution(c) <==> Equals(c, ClockConfig(c.hours, c.end, c.end))
  {
  }

  /** Among configurations that share the clock and the goal (all those one search
      visits), `equals` is structural equality and `hashCode` agrees with it. */
  lemma EqualsConsistent(a: ClockConfig, b: ClockConfig)
    requires a.hours == b.hours && a.end == b.end
    ensures Equals(a, b) <==> a == b
    ensures Equals(a, b) ==> HashCode(a) == HashCode(b)
  {
  }

  /** Every configuration with the same clock and goal: finite, and closed under moves. */
  ghost function Space(c: ClockConfig): (s: set<ClockConfig>)
    ensures c in s
    ensures forall x :: x in s ==> x.hours == c.hours && x.end == c.end
  {
    var s := set h: int32 | -TwoTo31 <= h < TwoTo31 :: At(c, h);
    assert At(c, c.start) in s;
    s
  }

  lemma SpaceClosed(c: ClockConfig)
    ensures forall x, n :: x in Space(c) && n in Neighbors(x) ==> n in Space(c)
  {
    forall x, n | x in Space(c) && n in Neighbors(x)
      ensures n in Space(c)
    {
      NeighborsShape(x);
      assert n == At(c, n.start);
    }
  }
}
