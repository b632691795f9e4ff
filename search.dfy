/** The invariant of the breadth-first search loop, the steps that keep it, and what it
    establishes: every key's level is its least number of moves from the start, and the
    first solution dequeued is a nearest one. */
module Search {
  import opened Common
  import opened SearchTree

  /** Between two dequeues: the first `head` entries of `order` have been dequeued, found
      no solution and had all their neighbours inserted at most one level further down;
      the queue `order[head..]` spans at most two adjacent levels. */
  ghost predicate Frontier<T(!new)>(moves: T -> set<T>, goal: T -> bool, start: T, space: set<T>,
                           pred: map<T, T>, depth: map<T, nat>, order: seq<T>, head: nat)
  {
    && Core(moves, start, space, pred, depth, order)
    && head <= |order|
    && (head < |order| ==> depth[Last(order)] <= depth[order[head]] + 1)
    && (forall i :: 0 <= i < head ==> Expanded(moves, pred, depth, order[i]))
    && (forall i :: 0 <= i < head ==> !goal(order[i]))
  }

  /** While the neighbours of `order[head]`, which is no solution, are examined: those in
      `done` have been inserted at most one level below it. */
  ghost predicate Expanding<T(!new)>(moves: T -> set<T>, goal: T -> bool, start: T, space: set<T>,
                            pred: map<T, T>, depth: map<T, nat>, order: seq<T>, head: nat, done: set<T>)
  {
    && Core(moves, start, space, pred, depth, order)
    && head < |order|
    && depth[Last(order)] <= depth[order[head]] + 1
    && (forall i :: 0 <= i < head ==> Expanded(moves, pred, depth, order[i]))
    && (forall i :: 0 <= i <= head ==> !goal(order[i]))
    && done <= pred.Keys
    && (forall n :: n in done ==> NotDeeper(depth, order[head], n))
  }

  /** The conjuncts of `Expanding`, one by one. */
  lemma ExpandingIntro<T(!new)>(moves: T -> set<T>, goal: T -> bool, start: T, space: set<T>,
                                pred: map<T, T>, depth: map<T, nat>, order: seq<T>, head: nat, done: set<T>)
    requires Core(moves, start, space, pred, depth, order)
    requires head < |order| && depth[Last(order)] <= depth[order[head]] + 1
    requires forall i :: 0 <= i < head ==> Expanded(moves, pred, depth, order[i])
    requires forall i :: 0 <= i <= head ==> !goal(order[i])
    requires done <= pred.Keys && forall n :: n in done ==> NotDeeper(depth, order[head], n)
    ensures Expanding(moves, goal, start, space, pred, depth, order, head, done)
  {
  }

  lemma FrontierInit<T(!new)>(moves: T -> set<T>, goal: T -> bool, start: T, space: set<T>)
    requires start in space
    ensures Frontier(moves, goal, start, space, map[start := start], map[start := 0], [start], 0)
  {
    CoreInit(moves, start, space);
  }

  lemma BeginExpand<T(!new)>(moves: T -> set<T>, goal: T -> bool, start: T, space: set<T>,
                    pred: map<T, T>, depth: map<T, nat>, order: seq<T>, head: nat)
    requires Frontier(moves, goal, start, space, pred, depth, order, head) && head < |order| && !goal(order[head])
    ensures Expanding(moves, goal, start, space, pred, depth, order, head, {})
  {
  }

  /** A neighbour that is already a key changes nothing but is accounted for. */
  lemma ExpandSeen<T(!new)>(moves: T -> set<T>, goal: T -> bool, start: T, space: set<T>,
                   pred: map<T, T>, depth: map<T, nat>, order: seq<T>, head: nat, done: set<T>, n: T)
    requires Expanding(moves, goal, start, space, pred, depth, order, head, done) && n in pred
    ensures Expanding(moves, goal, start, space, pred, depth, order, head, done + {n})
  {
    var j :| 0 <= j < |order| && order[j] == n;
    if j <= head {
      assert Level(depth, order, j) <= Level(depth, order, head);
    } else {
      assert Level(depth, order, j) <= Level(depth, order, |order| - 1);
    }
  }

  /** Inserting a configuration that was no key leaves the first `head` entries expanded
      and the configurations examined so far accounted for. */
  lemma ExpandedPrefixExtend<T(!new)>(moves: T -> set<T>, pred: map<T, T>, depth: map<T, nat>, order: seq<T>,
                             head: nat, done: set<T>, n: T, d: nat)
    requires head < |order| && pred.Keys == depth.Keys && n !in pred && order[head] in pred
    requires forall i :: 0 <= i < |order| ==> order[i] in pred
    requires forall i :: 0 <= i < head ==> Expanded(moves, pred, depth, order[i])
    requires done <= pred.Keys && forall m :: m in done ==> NotDeeper(depth, order[head], m)
    requires d <= depth[order[head]] + 1
    ensures var pred', depth', order' := pred[n := order[head]], depth[n := d], order + [n];
      && (forall i :: 0 <= i < head ==> Expanded(moves, pred', depth', order'[i]))
      && done + {n} <= pred'.Keys
      && (forall m :: m in done + {n} ==> NotDeeper(depth', order'[head], m))
  {
    var pred', depth', order' := pred[n := order[head]], depth[n := d], order + [n];
    forall i | 0 <= i < head
      ensures Expanded(moves, pred', depth', order'[i])
    {
      assert order'[i] == order[i];
      ExpandedExtend(moves, pred, depth, order[i], n, order[head], d);
    }
    forall m | m in done + {n}
      ensures NotDeeper(depth', order'[head], m)
    {
      if m != n {
        assert NotDeeper(depth, order[head], m);
      }
    }
  }

  /** A new neighbour becomes a key one level below the configuration being expanded, and
      is appended to the queue. */
  lemma ExpandNew<T(!new)>(moves: T -> set<T>, goal: T -> bool, start: T, space: set<T>,
                  pred: map<T, T>, depth: map<T, nat>, order: seq<T>, head: nat, done: set<T>, current: T, n: T)
    requires Expanding(moves, goal, start, space, pred, depth, order, head, done) && current == order[head]
    requires n !in pred && n in space && n in moves(current)
    ensures current in depth
    ensures Expanding(moves, goal, start, space, pred[n := current], depth[n := depth[current] + 1], order + [n], head, done + {n})
  {
    assert current in pred;
    CoreExtend(moves, start, space, pred, depth, order, current, n);
    ExpandedPrefixExtend(moves, pred, depth, order, head, done, n, depth[current] + 1);
    var order' := order + [n];
    assert forall i :: 0 <= i <= head ==> order'[i] == order[i];
    ExpandingIntro(moves, goal, start, space, pred[n := current], depth[n := depth[current] + 1], order', head, done + {n});
  }

  /** Once every neighbour has been examined, the configuration counts as dequeued. */
  lemma EndExpand<T(!new)>(moves: T -> set<T>, goal: T -> bool, start: T, space: set<T>,
                  pred: map<T, T>, depth: map<T, nat>, order: seq<T>, head: nat)
    requires head < |order| && Expanding(moves, goal, start, space, pred, depth, order, head, moves(order[head]))
    ensures Frontier(moves, goal, start, space, pred, depth, order, head + 1)
  {
    if head + 1 < |order| {
      assert Level(depth, order, head) <= Level(depth, order, head + 1);
    }
  }

  /** What the neighbour loop has done to `pred0` and `order0` so far, with `done` the
      neighbours examined: the old entries are kept, and the entries appended are the
      examined neighbours that were no key, each linked to `current`. */
  ghost predicate Grown<T(!new)>(pred0: map<T, T>, order0: seq<T>, pred: map<T, T>, order: seq<T>, done: set<T>, current: T)
  {
    && order0 <= order
    && (forall x :: x in pred0 ==> x in pred && pred[x] == pred0[x])
    && (forall x :: x in pred && x !in pred0 ==> pred[x] == current && x in done)
    && (set x | x in order[|order0|..]) == done - pred0.Keys
  }

  /** Inserting and enqueueing a neighbour that is no key. */
  lemma GrownNew<T(!new)>(pred0: map<T, T>, order0: seq<T>, pred: map<T, T>, order: seq<T>, done: set<T>, current: T, n: T)
    requires Grown(pred0, order0, pred, order, done, current) && n !in pred
    ensures Grown(pred0, order0, pred[n := current], order + [n], done + {n}, current)
  {
    assert n !in pred0;
    assert (order + [n])[|order0|..] == order[|order0|..] + [n];
    assert (set x | x in order[|order0|..] + [n]) == (set x | x in order[|order0|..]) + {n};
  }

  /** Passing over a neighbour that is already a key. */
  lemma GrownSeen<T(!new)>(pred0: map<T, T>, order0: seq<T>, pred: map<T, T>, order: seq<T>, done: set<T>, current: T, n: T)
    requires Grown(pred0, order0, pred, order, done, current) && n in pred
    ensures Grown(pred0, order0, pred, order, done + {n}, current)
  {
  }

  /** The `for` loop of the search over the neighbour list `nbrs` of the dequeued
      `order[head]`: count each one, and insert and enqueue each one that is not yet a key,
      with `order[head]` as its predecessor. */
  method ExpandAll<T(==, !new)>(ghost moves: T -> set<T>, ghost goal: T -> bool, ghost start: T, ghost space: set<T>,
                   pred0: map<T, T>, ghost depth0: map<T, nat>, ghost order0: seq<T>, ghost head: nat,
                   current: T, nbrs: seq<T>, queue0: seq<T>, total0: nat)
    returns (pred: map<T, T>, total: nat, ghost depth: map<T, nat>, ghost order: seq<T>, queue: seq<T>)
    requires Expanding(moves, goal, start, space, pred0, depth0, order0, head, {})
    requires current == order0[head] && (set n | n in nbrs) == moves(current) && moves(current) <= space
    requires queue0 == order0[head + 1..]
    ensures Frontier(moves, goal, start, space, pred, depth, order, head + 1)
    ensures total == total0 + |nbrs| && |order0| <= |order| <= |order0| + |nbrs|
    ensures order[..head + 1] == order0[..head + 1] && queue == order[head + 1..]
    // the old queue stays in front, old links are kept, and the entries appended are
    // exactly the unvisited neighbours, each linked to `current`
    ensures order0 <= order
    ensures forall x :: x in pred0 ==> x in pred && pred[x] == pred0[x]
    ensures forall x :: x in pred && x !in pred0 ==> pred[x] == current
    ensures (set x | x in order[|order0|..]) == moves(current) - pred0.Keys
  {
    pred, total, depth, order, queue := pred0, total0, depth0, order0, queue0;
    ghost var done: set<T> := {};
    assert order[|order0|..] == [];
    for i := 0 to |nbrs|
      invariant done == set m | m in nbrs[..i]
      invariant Expanding(moves, goal, start, space, pred, depth, order, head, done)
      invariant order[head] == current
      invariant order[..head + 1] == order0[..head + 1] && queue == order[head + 1..]
      invariant total == total0 + i && |order0| <= |order| <= |order0| + i
      invariant Grown(pred0, order0, pred, order, done, current)
    {
      PrefixSet(nbrs, i, i + 1);
      total := total + 1;
      var n := nbrs[i];
      if n !in pred {
        ExpandNew(moves, goal, start, space, pred, depth, order, head, done, current, n);
        AppendSlices(order, n, head + 1);
        GrownNew(pred0, order0, pred, order, done, current, n);
        pred := pred[n := current];
        depth := depth[n := depth[current] + 1];
        order := order + [n];
        queue := queue + [n];
      } else {
        ExpandSeen(moves, goal, start, space, pred, depth, order, head, done, n);
        GrownSeen(pred0, order0, pred, order, done, current, n);
      }
      done := done + {n};
    }
    assert nbrs[..|nbrs|] == nbrs;
    assert done == moves(order[head]);
    EndExpand(moves, goal, start, space, pred, depth, order, head);
  }

  // ---------------------------------------------------------------- what the search establishes

  /** Any walk from `start` ends at a key no deeper than its length, or is longer than the
      level of the next configuration to dequeue. */
  lemma {:induction false} WalkBound<T(!new)>(moves: T -> set<T>, goal: T -> bool, start: T, space: set<T>,
                                     pred: map<T, T>, depth: map<T, nat>, order: seq<T>, head: nat, w: seq<T>)
    requires Frontier(moves, goal, start, space, pred, depth, order, head)
    requires Walk(moves, w) && w[0] == start
    ensures || (Last(w) in pred && depth[Last(w)] <= |w| - 1)
            || (head < |order| && |w| - 1 >= depth[order[head]] + 1)
  {
    if |w| > 1 {
      var w' := w[..|w| - 1];
      assert Walk(moves, w') by {
        assert forall i :: 0 <= i < |w'| ==> w'[i] == w[i];
      }
      WalkBound(moves, goal, start, space, pred, depth, order, head, w');
      var x := Last(w');
      assert Last(w) in moves(x) by {
        assert w[|w| - 2] == x;
      }
      if x in pred && depth[x] <= |w'| - 1 {
        var i :| 0 <= i < |order| && order[i] == x;
        if i >= head {
          assert Level(depth, order, head) <= Level(depth, order, i);
        }
      }
    }
  }

  /** The level of every key is the length of a shortest walk from `start` to it. */
  lemma KeysAtShortestDistance<T(!new)>(moves: T -> set<T>, goal: T -> bool, start: T, space: set<T>,
                               pred: map<T, T>, depth: map<T, nat>, order: seq<T>, head: nat, w: seq<T>)
    requires Frontier(moves, goal, start, space, pred, depth, order, head)
    requires Walk(moves, w) && w[0] == start && Last(w) in pred
    ensures depth[Last(w)] <= |w| - 1
  {
    WalkBound(moves, goal, start, space, pred, depth, order, head, w);
    var j :| 0 <= j < |order| && order[j] == Last(w);
    if head < |order| {
      assert Level(depth, order, j) <= Level(depth, order, |order| - 1);
    }
  }

  /** When the queue runs empty, every configuration reachable from `start` is a key and
      none of them is a solution. */
  lemma ExhaustedSearch<T(!new)>(moves: T -> set<T>, goal: T -> bool, start: T, space: set<T>,
                        pred: map<T, T>, depth: map<T, nat>, order: seq<T>, w: seq<T>)
    requires Frontier(moves, goal, start, space, pred, depth, order, |order|)
    requires Walk(moves, w) && w[0] == start
    ensures Last(w) in pred && !goal(Last(w))
  {
    WalkBound(moves, goal, start, space, pred, depth, order, |order|, w);
    var j :| 0 <= j < |order| && order[j] == Last(w);
  }

  /** The first solution dequeued is a nearest one: no walk from `start` reaches a
      solution in fewer moves than its level. */
  lemma NearestSolution<T(!new)>(moves: T -> set<T>, goal: T -> bool, start: T, space: set<T>,
                        pred: map<T, T>, depth: map<T, nat>, order: seq<T>, head: nat, w: seq<T>)
    requires Frontier(moves, goal, start, space, pred, depth, order, head) && head < |order| && goal(order[head])
    requires Walk(moves, w) && w[0] == start && goal(Last(w))
    ensures |w| - 1 >= depth[order[head]]
  {
    WalkBound(moves, goal, start, space, pred, depth, order, head, w);
    if Last(w) in pred && depth[Last(w)] <= |w| - 1 {
      var j :| 0 <= j < |order| && order[j] == Last(w);
      assert j >= head;
      assert Level(depth, order, head) <= Level(depth, order, j);
    }
  }

  /** After a search that dequeued the solution `order[head]`, the chain to it is a walk
      from `start` to that solution as short as any walk from `start` to any solution. */
  lemma ShortestSolutionPath<T(!new)>(moves: T -> set<T>, goal: T -> bool, start: T, space: set<T>,
                             pred: map<T, T>, depth: map<T, nat>, order: seq<T>, head: nat)
    requires Frontier(moves, goal, start, space, pred, depth, order, head) && head < |order| && goal(order[head])
    ensures order[head] in pred
    ensures var p := Chain(start, pred, depth, order[head]);
      && p[0] == start && Last(p) == order[head] && Walk(moves, p)
      && forall w :: Walk(moves, w) && w[0] == start && goal(Last(w)) ==> |p| <= |w|
  {
    var x := order[head];
    ChainIsPath(moves, start, pred, depth, x);
    forall w | Walk(moves, w) && w[0] == start && goal(Last(w))
      ensures |Chain(start, pred, depth, x)| <= |w|
    {
      NearestSolution(moves, goal, start, space, pred, depth, order, head, w);
    }
  }
}
