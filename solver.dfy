/** The generic breadth-first solver (puzzles.common.solver.Solver). The constructor runs
    the search from a start configuration; the predecessor map it builds doubles as the
    visited set, and `constructPath` reads a path back out of it. */
module Solver {
  import opened Common
  import opened Configuration
  import opened SearchTree
  import opened Search

  /** The number of neighbours `getNeighbors` lists for the configurations of `s`. */
  ghost function Generated(s: seq<Config>): nat
  {
    if s == [] then 0 else Generated(s[..|s| - 1]) + NeighborCount(Last(s))
  }

  /** Dequeuing `order[head]` adds its neighbour count, whatever is appended behind it. */
  lemma GeneratedStep(order: seq<Config>, order': seq<Config>, head: nat)
    requires head < |order| <= |order'| && order'[..head + 1] == order[..head + 1]
    ensures Generated(order'[..head + 1]) == Generated(order[..head]) + NeighborCount(order[head])
  {
    assert order'[..head + 1][..head] == order[..head];
  }

  /** One pass of the search loop past the solution test: list the neighbours of the
      dequeued `order[head]` and examine each of them. */
  method Expand(ghost start: Config, ghost space: set<Config>, pred0: map<Config, Config>, ghost depth0: map<Config, nat>,
                ghost order0: seq<Config>, ghost head: nat, current: Config, queue0: seq<Config>, total0: nat)
    returns (pred: map<Config, Config>, total: nat, ghost depth: map<Config, nat>, ghost order: seq<Config>, queue: seq<Config>)
    requires Frontier(Neighbors, IsSolution, start, space, pred0, depth0, order0, head)
    requires head < |order0| && current == order0[head] && !IsSolution(current)
    requires current in space && ClosedAt(space, current) && queue0 == order0[head + 1..]
    requires total0 == 1 + Generated(order0[..head]) && |order0| <= total0
    ensures Frontier(Neighbors, IsSolution, start, space, pred, depth, order, head + 1)
    ensures total == 1 + Generated(order[..head + 1]) && |order0| <= |order| <= total
    ensures queue == order[head + 1..]
    ensures total == total0 + NeighborCount(current)
    ensures order0 <= order
    ensures forall x :: x in pred0 ==> x in pred && pred[x] == pred0[x]
    ensures forall x :: x in pred && x !in pred0 ==> pred[x] == current
    ensures (set x | x in order[|order0|..]) == Neighbors(current) - pred0.Keys
  {
    BeginExpand(Neighbors, IsSolution, start, space, pred0, depth0, order0, head);
    var nbrs := GetNeighbors(current);
    pred, total, depth, order, queue := ExpandAll(Neighbors, IsSolution, start, space, pred0, depth0, order0, head, current, nbrs, queue0, total0);
    GeneratedStep(order0, order, head);
  }

  /** The state the search stops in: at a dequeued solution, or with the queue empty;
      `total` counts the start and every neighbour listed by a dequeued configuration. */
  ghost predicate Searched(start: Config, space: set<Config>, pred: map<Config, Config>, depth: map<Config, nat>,
                           order: seq<Config>, head: nat, total: nat, solution: Option<Config>)
  {
    && Frontier(Neighbors, IsSolution, start, space, pred, depth, order, head)
    && total == 1 + Generated(order[..head])
    && |pred| <= total
    && (solution.Some? ==> head < |order| && solution.value == order[head] && IsSolution(solution.value))
    && (solution.None? ==> head == |order|)
  }

  /** One pass of the search loop over a non-empty queue: dequeue `order[head0]`, stop if
      it is a solution, otherwise expand it. */
  method Step(ghost start: Config, ghost space: set<Config>, pred0: map<Config, Config>, ghost depth0: map<Config, nat>,
              ghost order0: seq<Config>, ghost head0: nat, queue0: seq<Config>, total0: nat)
    returns (pred: map<Config, Config>, total: nat, solution: Option<Config>,
             ghost depth: map<Config, nat>, ghost order: seq<Config>, ghost head: nat, queue: seq<Config>)
    requires Frontier(Neighbors, IsSolution, start, space, pred0, depth0, order0, head0) && Closed(space)
    requires queue0 == order0[head0..] && queue0 != []
    requires total0 == 1 + Generated(order0[..head0]) && |order0| <= total0
    ensures solution.Some? ==> Searched(start, space, pred, depth, order, head, total, solution)
    ensures solution.None? ==>
      && Frontier(Neighbors, IsSolution, start, space, pred, depth, order, head)
      && queue == order[head..] && total == 1 + Generated(order[..head]) && |order| <= total
      && head == head0 + 1 && |order0| <= |order| <= |space|
    // the configuration tested is the front of the queue; a solution stops the search in
    // the state it was in
    ensures solution.Some? <==> IsSolution(queue0[0])
    ensures solution.Some? ==>
      && solution.value == queue0[0]
      && pred == pred0 && order == order0 && head == head0 && total == total0 && queue == queue0
    // otherwise the front is dequeued and its unvisited neighbours, linked to it, are
    // enqueued behind the rest of the queue; old links are kept
    ensures solution.None? ==>
      && order0 <= order && queue == queue0[1..] + order[|order0|..]
      && total == total0 + NeighborCount(queue0[0])
      && (forall x :: x in pred0 ==> x in pred && pred[x] == pred0[x])
      && (forall x :: x in pred && x !in pred0 ==> pred[x] == queue0[0])
      && (set x | x in order[|order0|..]) == Neighbors(queue0[0]) - pred0.Keys
  {
    var current := queue0[0];
    assert current in space && ClosedAt(space, current);
    var solved := CheckSolution(current);
    if solved {
      pred, total, solution, depth, order, head, queue := pred0, total0, Some(current), depth0, order0, head0, queue0;
      OrderFits(Neighbors, start, space, pred, depth, order);
      return;
    }
    solution := None;
    pred, total, depth, order, queue := Expand(start, space, pred0, depth0, order0, head0, current, queue0[1..], total0);
    head := head0 + 1;
    OrderFits(Neighbors, start, space, pred, depth, order);
    PrefixSuffix(order0, order, head0 + 1);
  }

  /** The search: dequeue from the front until a solution is dequeued or the queue is
      empty, expanding every configuration dequeued that is no solution. The search space
      of `start` bounds the loop. */
  method BreadthFirst(start: Config)
    returns (pred: map<Config, Config>, total: nat, solution: Option<Config>,
             ghost space: set<Config>, ghost depth: map<Config, nat>, ghost order: seq<Config>, ghost head: nat)
    requires WellFormed(start)
    ensures space == Space(start) && Searched(start, space, pred, depth, order, head, total, solution)
  {
    SpaceClosed(start);
    space := Space(start);
    var queue := [start];
    pred := map[start := start];
    total := 1;
    solution := None;
    depth, order, head := map[start := 0], [start], 0;
    FrontierInit(Neighbors, IsSolution, start, space);
    while queue != []
      invariant Frontier(Neighbors, IsSolution, start, space, pred, depth, order, head)
      invariant queue == order[head..] && solution.None?
      invariant total == 1 + Generated(order[..head]) && |order| <= total
      decreases |space| - |order|, |order| - head
    {
      ghost var order0, head0 := order, head;
      pred, total, solution, depth, order, head, queue := Step(start, space, pred, depth, order, head, queue, total);
      if solution.Some? {
        return;
      }
      assert |order0| <= |order| <= |space| && head == head0 + 1;
    }
    OrderFits(Neighbors, start, space, pred, depth, order);
  }

  /** After the search, the predecessor chain to any key is a walk from `start` through
      the search space, one entry per level. */
  lemma SearchedChain(start: Config, space: set<Config>, pred: map<Config, Config>, depth: map<Config, nat>,
                      order: seq<Config>, head: nat, total: nat, solution: Option<Config>, x: Config)
    requires Searched(start, space, pred, depth, order, head, total, solution) && x in pred
    ensures Rooted(start, pred, depth) && depth[start] == 0
    ensures var c := Chain(start, pred, depth, x);
      && c[0] == start && Last(c) == x && |c| == depth[x] + 1 && Walk(Neighbors, c)
      && forall i :: 0 <= i < |c| ==> c[i] in space
  {
    ChainIsPath(Neighbors, start, pred, depth, x);
  }

  /** The loop of `constructPath` over the predecessor map `pred`: prepend the current
      node and step to its predecessor until `startNode` is reached. */
  method TracePath(ghost start: Config, pred: map<Config, Config>, ghost depth: map<Config, nat>,
                   startNode: Config, endNode: Option<Config>) returns (path: seq<Config>)
    requires Rooted(start, pred, depth)
    requires endNode.Some? && endNode.value in pred ==> startNode in Chain(start, pred, depth, endNode.value)
    ensures endNode.None? || endNode.value !in pred ==> path == []
    ensures endNode.Some? && endNode.value in pred ==>
              startNode in depth && path == Chain(start, pred, depth, endNode.value)[depth[startNode]..]
  {
    path := [];
    if endNode.Some? && endNode.value in pred {
      ghost var c := ChainLinks(start, pred, depth, endNode.value);
      ghost var k :| 0 <= k < |c| && c[k] == startNode;
      var currNode := endNode.value;
      ghost var j := |c| - 1;
      while currNode != startNode
        invariant k <= j < |c| && c[j] == currNode
        invariant path == c[j + 1..]
        decreases j
      {
        DropCons(c, j);
        path := [currNode] + path;
        currNode := pred[currNode];
        j := j - 1;
      }
      DropCons(c, j);
      path := [startNode] + path;
    }
  }

  // ---------------------------------------------------------------- the solver object

  class Solver {
    /** Every configuration generated, the start included (Java `int total`). */
    var total: nat
    var predecessors: map<Config, Config>
    /** The solution found, or null. */
    var solution: Option<Config>

    ghost var start: Config
    ghost var space: set<Config>
    /** Each key's level below `start`. */
    ghost var depth: map<Config, nat>
    /** Every configuration ever enqueued, in order; the queue is `order[head..]`. */
    ghost var order: seq<Config>
    ghost var head: nat

    /** The state after the search: stopped at a solution, or with the queue empty. */
    ghost predicate Valid()
      reads this
    {
      Searched(start, space, predecessors, depth, order, head, total, solution)
    }

    /** The search of the constructor, run from `start`; the fields keep its outcome. */
    constructor(start: Config)
      requires WellFormed(start)
      ensures Valid() && this.start == start && space == Space(start)
    {
      var pred, total, solution;
      ghost var space, depth, order, head;
      pred, total, solution, space, depth, order, head := BreadthFirst(start);
      this.start, this.space, this.depth, this.order, this.head := start, space, depth, order, head;
      this.predecessors, this.total, this.solution := pred, total, solution;
    }

    /** `getSolution`: a solution, at the least number of moves from the start of all
        solutions, or null when no configuration reachable from the start is one. */
    function GetSolution(): (s: Option<Config>)
      requires Valid()
      reads this
      ensures s.Some? ==> IsSolution(s.value) && s.value in predecessors
      ensures s.Some? ==> forall w :: Walk(Neighbors, w) && w[0] == start && IsSolution(Last(w)) ==> depth[s.value] <= |w| - 1
      ensures s.None? ==> forall w :: Walk(Neighbors, w) && w[0] == start ==> !IsSolution(Last(w))
    {
      if solution.Some? then
        assert forall w :: Walk(Neighbors, w) && w[0] == start && IsSolution(Last(w)) ==> depth[solution.value] <= |w| - 1 by {
          forall w | Walk(Neighbors, w) && w[0] == start && IsSolution(Last(w)) ensures depth[solution.value] <= |w| - 1 {
            NearestSolution(Neighbors, IsSolution, start, space, predecessors, depth, order, head, w);
          }
        }
        solution
      else
        assert forall w :: Walk(Neighbors, w) && w[0] == start ==> !IsSolution(Last(w)) by {
          forall w | Walk(Neighbors, w) && w[0] == start ensures !IsSolution(Last(w)) {
            ExhaustedSearch(Neighbors, IsSolution, start, space, predecessors, depth, order, w);
          }
        }
        solution
    }

    /** `getTotal`: never below the number of distinct configurations. */
    function GetTotal(): (n: nat)
      requires Valid()
      reads this
      ensures |predecessors| <= n
    {
      total
    }

    /** `getUnique`: one per configuration ever enqueued. */
    function GetUnique(): (n: nat)
      requires Valid()
      reads this
      ensures n == |order| <= total
    {
      OrderFits(Neighbors, start, space, predecessors, depth, order);
      |predecessors|
    }

    /** `constructPath`: the predecessor links from `endNode` back to `startNode`, in
        forward order; empty when `endNode` is null or not a key. The source stops on
        reference identity and loops forever when `startNode` is not on the chain, which
        the precondition excludes. */
    method ConstructPath(startNode: Config, endNode: Option<Config>) returns (path: seq<Config>)
      requires Rooted(start, predecessors, depth)
      requires endNode.Some? && endNode.value in predecessors ==>
                 startNode in Chain(start, predecessors, depth, endNode.value)
      ensures endNode.None? || endNode.value !in predecessors ==> path == []
      ensures endNode.Some? && endNode.value in predecessors ==>
                startNode in depth && path == Chain(start, predecessors, depth, endNode.value)[depth[startNode]..]
    {
      path := TracePath(start, predecessors, depth, startNode, endNode);
    }
  }
}
