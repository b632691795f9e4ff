/** The interactive Hoppers model (puzzles.hoppers.model.HoppersModel): the board on
    display, the cells clicked so far, and the two operations that change the board, a
    two-click jump and a hint that plays one move of a shortest solution. Messages that
    the source sends to its observers are returned instead. */
module HoppersModel {
  import opened Common
  import opened Configuration
  import opened SearchTree
  import Hoppers
  import Solver

  /** The texts `alertObservers` receives, by kind. */
  datatype Message =
    | Jumped(from: Coord, to: Coord)
    | CannotJump(from: Coord, to: Coord)
    | Selected(at: Coord)
    | NoFrog(at: Coord)
    | NextStep
    | AlreadySolved
    | NoSolution

  /** How `select` ends: with one message, or with the exception the unchecked board
      read throws for a first cell off the board. */
  datatype Outcome = Alert(message: Message) | IndexOutOfBounds

  /** `w` is a sequence of moves from `c` that ends in a solution. */
  ghost predicate SolutionWalk(w: seq<Config>, c: Config)
  {
    Walk(Neighbors, w) && w[0] == c && IsSolution(Last(w))
  }

  class HoppersModel {
    var currentConfig: Hoppers.HoppersConfig
    /** The cells clicked since the last jump attempt (Java `List<Coordinates> selected`). */
    var selected: seq<Coord>

    /** The board is well formed; a second cell is pending only behind a first cell off
        the board, which every later `select` fails on. */
    ghost predicate Valid()
      reads this
    {
      && Hoppers.Valid(currentConfig)
      && (|selected| >= 2 ==> !Hoppers.Inside(currentConfig, selected[0]))
    }

    /** The model of a loaded board, with no cell selected. */
    constructor(board: Hoppers.HoppersConfig)
      requires Hoppers.Valid(board)
      ensures Valid() && currentConfig == board && selected == []
    {
      currentConfig := board;
      selected := [];
    }

    /** `select(row, col)`: the clicked cell joins the selection and the first selected
        cell is read. A second cell attempts the jump from the first to it, legal exactly
        when the cell between them holds a green frog and the landing cell is empty, and
        then clears the selection either way; a first cell stays selected only if it holds
        a frog. */
    method Select(row: int, col: int) returns (outcome: Outcome)
      requires Valid()
      modifies this
      ensures Valid()
      ensures var s := old(selected) + [Coord(row, col)];
        && (!Hoppers.Inside(old(currentConfig), s[0]) ==>
              outcome == IndexOutOfBounds && selected == s && currentConfig == old(currentConfig))
        && (Hoppers.Inside(old(currentConfig), s[0]) && |s| == 2 ==>
              var initial, move := s[0], s[1];
              var jumped := Get(Hoppers.MakeMove(initial.row, initial.col), move);
              && selected == []
              && (Hoppers.LegalJump(old(currentConfig), move, jumped) ==>
                    && outcome == Alert(Jumped(initial, move))
                    && currentConfig == Hoppers.Jump(old(currentConfig), Hoppers.Cell(old(currentConfig), initial),
                                                     move, jumped.value, initial))
              && (!Hoppers.LegalJump(old(currentConfig), move, jumped) ==>
                    outcome == Alert(CannotJump(initial, move)) && currentConfig == old(currentConfig)))
        && (Hoppers.Inside(old(currentConfig), s[0]) && |s| != 2 ==>
              && currentConfig == old(currentConfig)
              && (Hoppers.IsFrog(Hoppers.Cell(old(currentConfig), s[0])) ==>
                    outcome == Alert(Selected(Coord(row, col))) && selected == s)
              && (!Hoppers.IsFrog(Hoppers.Cell(old(currentConfig), s[0])) ==>
                    outcome == Alert(NoFrog(Coord(row, col))) && selected == s[1..]))
      // whenever `select` returns, at most one cell stays selected
      ensures outcome.Alert? ==> |selected| <= 1
      // the board changes exactly on a legal jump
      ensures currentConfig != old(currentConfig) <==> outcome.Alert? && outcome.message.Jumped?
      // a jump of a frog is one of the moves the solver explores, and costs a green frog
      ensures outcome.Alert? && outcome.message.Jumped? &&
              Hoppers.IsFrog(Hoppers.Cell(old(currentConfig), (old(selected) + [Coord(row, col)])[0])) ==>
                && currentConfig in Hoppers.Neighbors(old(currentConfig))
                && Hoppers.Greens(currentConfig) == Hoppers.Greens(old(currentConfig)) - 1
    {
      ghost var cfg := currentConfig;
      selected := selected + [Coord(row, col)];
      var initial := selected[0];
      if !Hoppers.InsideBounds(currentConfig, initial.row, initial.col) {
        return IndexOutOfBounds;
      }
      var ch := currentConfig.board[initial.row][initial.col];
      if |selected| == 2 {
        var move := selected[1];
        var jumped := Get(Hoppers.MakeMove(initial.row, initial.col), move);
        if Hoppers.LegalJump(currentConfig, move, jumped) {
          currentConfig := Hoppers.MakeJump(currentConfig, ch, move, jumped.value, initial);
          JumpChanges(cfg, initial, move, jumped.value);
          outcome := Alert(Jumped(initial, move));
        } else {
          outcome := Alert(CannotJump(initial, move));
        }
        selected := [];
      } else if Hoppers.IsFrog(ch) {
        outcome := Alert(Selected(Coord(row, col)));
      } else {
        selected := selected[1..];
        outcome := Alert(NoFrog(Coord(row, col)));
      }
    }

    /** `solve`: a fresh solver from the displayed board and the path to its solution.
        The path is a shortest sequence of moves from the board to a solution, and is
        empty exactly when no sequence of moves reaches one. */
    method Solve() returns (path: seq<Config>)
      requires Valid()
      ensures path == [] <==> forall w :: !SolutionWalk(w, HoppersState(currentConfig))
      ensures path != [] ==>
                && SolutionWalk(path, HoppersState(currentConfig))
                && forall w :: SolutionWalk(w, HoppersState(currentConfig)) ==> |path| <= |w|
      ensures forall i :: 0 <= i < |path| ==> path[i] in Space(HoppersState(currentConfig))
    {
      var start := HoppersState(currentConfig);
      var sol := new Solver.Solver(start);
      var solution := sol.GetSolution();
      ghost var space, pred, depth := sol.space, sol.predecessors, sol.depth;
      ghost var order, head, total := sol.order, sol.head, sol.total;
      assert Solver.Searched(start, space, pred, depth, order, head, total, solution);
      Solver.SearchedChain(start, space, pred, depth, order, head, total, solution,
                           if solution.Some? then solution.value else start);
      path := sol.ConstructPath(start, solution);
      SolvedPath(start, space, pred, depth, solution, path);
    }

    /** `hint`: solve from the displayed board; if the path has a move, play its first
        move, otherwise report that the board is solved or has no solution. The
        selection is left as it was. */
    method Hint() returns (message: Message)
      requires Valid()
      modifies this`currentConfig
      ensures Valid() && selected == old(selected)
      ensures message == NoSolution <==> forall w :: !SolutionWalk(w, HoppersState(old(currentConfig)))
      ensures message == AlreadySolved <==> Hoppers.Solved(old(currentConfig))
      ensures message != NextStep ==> currentConfig == old(currentConfig)
      ensures message == NextStep ==>
                && HoppersState(currentConfig) in Neighbors(HoppersState(old(currentConfig)))
                && exists w :: && SolutionWalk(w, HoppersState(currentConfig))
                               && forall v :: SolutionWalk(v, HoppersState(old(currentConfig))) ==> |w| < |v|
    {
      var path := Solve();
      ghost var start := HoppersState(currentConfig);
      assert SolutionWalk([start], start) <==> Hoppers.Solved(currentConfig);
      if HoppersState(currentConfig) in path {
        if |path| > 1 {
          NextOnPath(currentConfig, path);
          currentConfig := path[1].hoppers;
          message := NextStep;
        } else {
          message := AlreadySolved;
        }
      } else {
        message := NoSolution;
      }
    }
  }

  /** What a finished search tells about the path read off it: the chain to the solution
      found is a shortest solution walk, and no walk reaches a solution when none was
      found. */
  lemma SolvedPath(start: Config, space: set<Config>, pred: map<Config, Config>, depth: map<Config, nat>,
                   solution: Option<Config>, path: seq<Config>)
    requires Rooted(start, pred, depth)
    requires solution.Some? ==> IsSolution(solution.value) && solution.value in pred
    requires solution.Some? ==> forall w :: Walk(Neighbors, w) && w[0] == start && IsSolution(Last(w)) ==> depth[solution.value] <= |w| - 1
    requires solution.None? ==> forall w :: Walk(Neighbors, w) && w[0] == start ==> !IsSolution(Last(w))
    requires solution.None? ==> path == []
    requires solution.Some? ==>
      && path == Chain(start, pred, depth, solution.value)
      && path[0] == start && Last(path) == solution.value && |path| == depth[solution.value] + 1 && Walk(Neighbors, path)
      && forall i :: 0 <= i < |path| ==> path[i] in space
    ensures path == [] <==> forall w :: !SolutionWalk(w, start)
    ensures path != [] ==> SolutionWalk(path, start) && forall w :: SolutionWalk(w, start) ==> |path| <= |w|
    ensures forall i :: 0 <= i < |path| ==> path[i] in space
  {
    if solution.None? {
      forall w ensures !SolutionWalk(w, start) {
        if Walk(Neighbors, w) && w[0] == start {
          assert !IsSolution(Last(w));
        }
      }
    } else {
      assert SolutionWalk(path, start);
    }
  }

  /** A legal jump writes the landing cell, empties the cell of the green frog jumped
      over, and so always changes the board. */
  lemma JumpChanges(cfg: Hoppers.HoppersConfig, initial: Coord, move: Coord, jumped: Coord)
    requires Hoppers.Valid(cfg) && Hoppers.Inside(cfg, initial)
    requires Hoppers.LegalJump(cfg, move, Some(jumped)) && Get(Hoppers.MakeMove(initial.row, initial.col), move) == Some(jumped)
    ensures var j := Hoppers.Jump(cfg, Hoppers.Cell(cfg, initial), move, jumped, initial);
      && Hoppers.Valid(j) && j.row == cfg.row && j.column == cfg.column && j != cfg
      && (Hoppers.IsFrog(Hoppers.Cell(cfg, initial)) ==>
            j in Hoppers.Neighbors(cfg) && Hoppers.Greens(j) == Hoppers.Greens(cfg) - 1)
  {
    var ch := Hoppers.Cell(cfg, initial);
    Hoppers.JumpEffect(cfg, ch, move, jumped, initial);
    var j := Hoppers.Jump(cfg, ch, move, jumped, initial);
    assert Hoppers.Cell(j, jumped) != Hoppers.Cell(cfg, jumped);
    if Hoppers.IsFrog(ch) {
      Hoppers.SelectedJumpIsNeighbor(cfg, initial, move);
      Hoppers.NeighborsSound(cfg);
    }
  }

  /** The second entry of a shortest solution path from `cfg` is a well-formed neighbour of
      the same dimensions, from which the rest of the path is a shorter solution walk. */
  lemma NextOnPath(cfg: Hoppers.HoppersConfig, path: seq<Config>)
    requires Hoppers.Valid(cfg) && |path| > 1
    requires SolutionWalk(path, HoppersState(cfg))
    requires forall w :: SolutionWalk(w, HoppersState(cfg)) ==> |path| <= |w|
    requires forall i :: 0 <= i < |path| ==> path[i] in Space(HoppersState(cfg))
    ensures path[1].HoppersState? && path[1] in Neighbors(HoppersState(cfg))
    ensures Hoppers.Valid(path[1].hoppers) && path[1].hoppers.row == cfg.row && path[1].hoppers.column == cfg.column
    ensures SolutionWalk(path[1..], path[1])
    ensures forall v :: SolutionWalk(v, HoppersState(cfg)) ==> |path[1..]| < |v|
  {
    Hoppers.ReachClosed(cfg);
    assert path[1] in Space(HoppersState(cfg));
    var rest := path[1..];
    assert Walk(Neighbors, rest) by {
      forall i | 0 <= i < |rest| - 1 ensures rest[i + 1] in Neighbors(rest[i]) {
        assert rest[i] == path[i + 1] && rest[i + 1] == path[i + 2];
      }
    }
    assert Last(rest) == Last(path);
  }
}
