/** The breadth-first search tree: a predecessor map rooted at the start configuration,
    the levels of its keys, and the order in which keys were inserted. Stated for any
    configuration type `T` and neighbour function `moves`, since the solver sees
    configurations only through the `Configuration` interface. */
module SearchTree {
  import opened Common

  function Last<T>(s: seq<T>): T
    requires |s| > 0
  {
    s[|s| - 1]
  }

  /** A sequence of moves: each entry is a neighbour of the one before. */
  ghost predicate Walk<T(!new)>(moves: T -> set<T>, w: seq<T>)
  {
    |w| >= 1 && forall i :: 0 <= i < |w| - 1 ==> w[i + 1] in moves(w[i])
  }

  // ---------------------------------------------------------------- the search tree

  /** The predecessor map is rooted at `start`, which is its own predecessor; every other
      key's predecessor is a key one level (`depth`) further up. */
  ghost predicate Rooted<T(!new)>(start: T, pred: map<T, T>, depth: map<T, nat>)
  {
    && start in pred && pred[start] == start
    && pred.Keys == depth.Keys && depth[start] == 0
    && forall x {:trigger pred[x]} :: x in pred && x != start ==>
         pred[x] in pred && depth[x] == depth[pred[x]] + 1
  }

  /** A rooted predecessor map whose every key other than `start` is a neighbour of its
      predecessor. */
  ghost predicate Tree<T(!new)>(moves: T -> set<T>, start: T, pred: map<T, T>, depth: map<T, nat>)
  {
    && Rooted(start, pred, depth)
    && forall x {:trigger pred[x]} :: x in pred && x != start ==> x in moves(pred[x])
  }

  /** The predecessor links from `start` down to `x`. */
  ghost function Chain<T(!new)>(start: T, pred: map<T, T>, depth: map<T, nat>, x: T): (c: seq<T>)
    requires Rooted(start, pred, depth) && x in pred
    ensures |c| == depth[x] + 1 && c[0] == start && c[|c| - 1] == x
    ensures forall i :: 0 <= i < |c| ==> c[i] in pred && depth[c[i]] == i
    decreases depth[x]
  {
    if x == start then [start] else Chain(start, pred, depth, pred[x]) + [x]
  }

  /** Following predecessor links from any key reaches `start`: the chain is a walk from
      `start` to `x` of `depth[x]` moves whose entries are keys at levels 0, 1, 2, ...,
      each the predecessor of the next. */
  lemma {:induction false} ChainIsPath<T(!new)>(moves: T -> set<T>, start: T, pred: map<T, T>, depth: map<T, nat>, x: T)
    requires Tree(moves, start, pred, depth) && x in pred
    ensures var c := Chain(start, pred, depth, x);
      && |c| == depth[x] + 1 && c[0] == start && Last(c) == x && Walk(moves, c)
      && (forall i :: 0 <= i < |c| ==> c[i] in pred && depth[c[i]] == i)
      && (forall i :: 0 < i < |c| ==> pred[c[i]] == c[i - 1])
    decreases depth[x]
  {
    if x != start {
      ChainIsPath(moves, start, pred, depth, pred[x]);
      var p := Chain(start, pred, depth, pred[x]);
      assert Chain(start, pred, depth, x) == p + [x];
    }
  }

  // ---------------------------------------------------------------- the search invariant

  /** The structure every state of the search has: `order` lists the keys of `pred` in the
      order they were inserted, each once, starting with `start`, levels never decreasing
      along it (each key was appended to the queue exactly when it was inserted). */
  ghost predicate Core<T(!new)>(moves: T -> set<T>, start: T, space: set<T>, pred: map<T, T>, depth: map<T, nat>, order: seq<T>)
  {
    && Tree(moves, start, pred, depth)
    && |order| >= 1 && order[0] == start
    && Enumerates(pred, order)
    && pred.Keys <= space
    && Monotone(depth, order)
  }

  /** `order` lists the keys of `pred`, each once. */
  ghost predicate Enumerates<T(!new)>(pred: map<T, T>, order: seq<T>)
  {
    && |pred| == |order|
    && (forall x :: x in pred <==> x in order)
  }

  /** The level of the `i`-th configuration enqueued. */
  ghost function Level<T(!new)>(depth: map<T, nat>, order: seq<T>, i: int): nat
  {
    if 0 <= i < |order| && order[i] in depth then depth[order[i]] else 0
  }

  /** Levels never decrease along `order`. */
  ghost predicate Monotone<T(!new)>(depth: map<T, nat>, order: seq<T>)
  {
    && (forall i :: 0 <= i < |order| ==> order[i] in depth)
    && (forall i, j :: 0 <= i <= j < |order| ==> Level(depth, order, i) <= Level(depth, order, j))
  }

  /** `n` is a key at most one level below the key `x`. */
  ghost predicate NotDeeper<T(!new)>(depth: map<T, nat>, x: T, n: T)
  {
    x in depth && n in depth && depth[n] <= depth[x] + 1
  }

  /** Every neighbour of `x` is a key at most one level below it. */
  ghost predicate Expanded<T(!new)>(moves: T -> set<T>, pred: map<T, T>, depth: map<T, nat>, x: T)
  {
    && moves(x) <= pred.Keys
    && forall n :: n in moves(x) ==> NotDeeper(depth, x, n)
  }

  lemma CoreInit<T(!new)>(moves: T -> set<T>, start: T, space: set<T>)
    requires start in space
    ensures Core(moves, start, space, map[start := start], map[start := 0], [start])
  {
  }

  /** Inserting a neighbour of a key below it keeps the tree. */
  lemma TreeExtend<T(!new)>(moves: T -> set<T>, start: T, pred: map<T, T>, depth: map<T, nat>, current: T, n: T)
    requires Tree(moves, start, pred, depth) && current in pred && n !in pred && n in moves(current)
    ensures Tree(moves, start, pred[n := current], depth[n := depth[current] + 1])
  {
    var pred', depth' := pred[n := current], depth[n := depth[current] + 1];
    forall x | x in pred' && x != start
      ensures pred'[x] in pred' && x in moves(pred'[x]) && depth'[x] == depth'[pred'[x]] + 1
    {
      if x != n {
        assert pred[x] in pred;
      }
    }
  }

  /** Appending a level at least that of the last entry keeps the levels non-decreasing. */
  lemma LevelsExtend<T(!new)>(depth: map<T, nat>, order: seq<T>, n: T, d: nat)
    requires Monotone(depth, order) && |order| >= 1 && n !in order
    requires Level(depth, order, |order| - 1) <= d
    ensures Monotone(depth[n := d], order + [n])
  {
    var depth', order' := depth[n := d], order + [n];
    assert forall i :: 0 <= i < |order| ==> order'[i] == order[i] && order[i] != n;
    forall i, j | 0 <= i <= j < |order'|
      ensures Level(depth', order', i) <= Level(depth', order', j)
    {
      if j < |order| {
        assert Level(depth, order, i) <= Level(depth, order, j);
      } else if i < |order| {
        assert Level(depth, order, i) <= Level(depth, order, |order| - 1);
      }
    }
  }

  /** Appending a configuration that was no key to both keeps the enumeration. */
  lemma EnumeratesExtend<T(!new)>(pred: map<T, T>, order: seq<T>, n: T, p: T)
    requires Enumerates(pred, order) && n !in pred
    ensures Enumerates(pred[n := p], order + [n])
  {
    assert forall x :: x in order + [n] <==> x in order || x == n;
  }

  lemma CoreExtend<T(!new)>(moves: T -> set<T>, start: T, space: set<T>, pred: map<T, T>,
                   depth: map<T, nat>, order: seq<T>, current: T, n: T)
    requires Core(moves, start, space, pred, depth, order) && current in pred
    requires n !in pred && n in space && n in moves(current) && depth[Last(order)] <= depth[current] + 1
    ensures Core(moves, start, space, pred[n := current], depth[n := depth[current] + 1], order + [n])
  {
    TreeExtend(moves, start, pred, depth, current, n);
    EnumeratesExtend(pred, order, n, current);
    assert Level(depth, order, |order| - 1) == depth[Last(order)];
    LevelsExtend(depth, order, n, depth[current] + 1);
  }

  /** Inserting a configuration that was no key leaves an expanded key expanded. */
  lemma ExpandedExtend<T(!new)>(moves: T -> set<T>, pred: map<T, T>, depth: map<T, nat>, x: T, n: T, p: T, d: nat)
    requires Expanded(moves, pred, depth, x) && pred.Keys == depth.Keys && x in pred && n !in pred
    ensures Expanded(moves, pred[n := p], depth[n := d], x)
  {
    forall m | m in moves(x)
      ensures NotDeeper(depth[n := d], x, m)
    {
      assert m in pred && NotDeeper(depth, x, m);
    }
  }

  /** There are as many keys as configurations ever enqueued, and no more than the finite
      space holds. */
  lemma OrderFits<T(!new)>(moves: T -> set<T>, start: T, space: set<T>, pred: map<T, T>, depth: map<T, nat>, order: seq<T>)
    requires Core(moves, start, space, pred, depth, order)
    ensures |pred| == |order| <= |space|
  {
    assert |pred| == |pred.Keys|;
    SubsetCard(pred.Keys, space);
  }

  /** No configuration is enqueued twice. */
  lemma EnqueuedOnce<T(!new)>(moves: T -> set<T>, start: T, space: set<T>, pred: map<T, T>, depth: map<T, nat>, order: seq<T>)
    requires Core(moves, start, space, pred, depth, order)
    ensures forall i, j :: 0 <= i < j < |order| ==> order[i] != order[j]
  {
    assert pred.Keys == set x | x in order;
    assert |pred| == |pred.Keys|;
    CardDistinct(order);
  }
  /** Each entry of a chain after the first is the successor of the one before. */
  lemma {:induction false} ChainLink<T(!new)>(start: T, pred: map<T, T>, depth: map<T, nat>, x: T, i: nat)
    requires Rooted(start, pred, depth) && x in pred && 0 < i < |Chain(start, pred, depth, x)|
    ensures pred[Chain(start, pred, depth, x)[i]] == Chain(start, pred, depth, x)[i - 1]
    decreases depth[x]
  {
    if x != start && i < depth[x] {
      ChainLink(start, pred, depth, pred[x], i);
    }
  }

  /** The chain to `x`, with each entry the predecessor of the next. */
  lemma ChainLinks<T(!new)>(start: T, pred: map<T, T>, depth: map<T, nat>, x: T) returns (c: seq<T>)
    requires Rooted(start, pred, depth) && x in pred
    ensures c == Chain(start, pred, depth, x) && |c| > 0 && Last(c) == x
    ensures forall i :: 0 <= i < |c| ==> c[i] in depth && depth[c[i]] == i
    ensures forall i :: 0 < i < |c| ==> pred[c[i]] == c[i - 1]
  {
    c := Chain(start, pred, depth, x);
    forall i | 0 < i < |c| ensures pred[c[i]] == c[i - 1] {
      ChainLink(start, pred, depth, x, i);
    }
  }
}
