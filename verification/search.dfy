/** The exhaustive backtracking search of NormalSudoku.java (the private
    solve): a functional definition of the sequence of solved boards it
    pushes, and the work-list loop proved to push exactly that sequence. */
module Search {
  import opened Wrappers
  import opened Geometry
  import opened Grid
  import opened Rules

  /** Candidate v may go in field f of board m: both are in range and no
      peer of the field already holds v. */
  predicate Allowed(d: Dim, m: Matrix, f: int, v: int)
    requires Shaped(d, m)
  {
    && 0 <= f < Area(d) && 1 <= v <= GridSide(d)
    && NoPeerHolds(d, m, DivN(d, f), ModN(d, f), v)
  }

  /** The search's test is exactly isValidMove answering true. */
  lemma AllowedIsValidMove(d: Dim, m: Matrix, f: int, v: int)
    requires Shaped(d, m)
    ensures Allowed(d, m, f, v) <==> IsValidMove(d, m, f, v) == Success(true)
  {
  }

  /** The first empty field at or after field k, in row-major order. */
  function FirstEmptyFrom(d: Dim, m: Matrix, k: int): (r: Option<int>)
    requires Shaped(d, m) && 0 <= k <= Area(d)
    ensures r.Some? ==> k <= r.value < Area(d) && Cell(d, m, r.value) == 0
    decreases Area(d) - k
  {
    if k == Area(d) then None
    else if Cell(d, m, k) == 0 then Some(k)
    else FirstEmptyFrom(d, m, k + 1)
  }

  /** No field from k up to the one found (or up to the end, when none is
      found) is empty. */
  lemma {:induction false} FirstEmptyFromSkips(d: Dim, m: Matrix, k: int)
    requires Shaped(d, m) && 0 <= k <= Area(d)
    ensures FirstEmptyFrom(d, m, k).Some? ==> forall g | k <= g < FirstEmptyFrom(d, m, k).value :: Cell(d, m, g) != 0
    ensures FirstEmptyFrom(d, m, k).None? ==> forall g | k <= g < Area(d) :: Cell(d, m, g) != 0
    decreases Area(d) - k
  {
    if k < Area(d) && Cell(d, m, k) != 0 {
      FirstEmptyFromSkips(d, m, k + 1);
    }
  }

  /** A board is full exactly when every field, read row-major, is nonzero. */
  lemma FullByFields(d: Dim, m: Matrix)
    requires Shaped(d, m)
    ensures Full(d, m) <==> forall f | 0 <= f < Area(d) :: Cell(d, m, f) != 0
  {
    var n := GridSide(d);
    if forall f | 0 <= f < Area(d) :: Cell(d, m, f) != 0 {
      forall i, j | 0 <= i < n && 0 <= j < n
        ensures m[i][j] != 0
      {
        FieldJoin(d, i, j);
        assert Cell(d, m, MulN(d, i) + j) == m[i][j];
      }
    }
    if Full(d, m) {
      forall f | 0 <= f < Area(d)
        ensures Cell(d, m, f) != 0
      {
        FieldSplit(d, f);
      }
    }
  }

  /** The cell a search step branches on: the first empty field in row-major
      order, or none when the board is full. */
  function FirstEmpty(d: Dim, m: Matrix): (r: Option<int>)
    requires Shaped(d, m)
    ensures r.Some? ==> 0 <= r.value < Area(d) && Cell(d, m, r.value) == 0
  {
    FirstEmptyFrom(d, m, 0)
  }

  /** The search finds no empty field exactly on a full board, and every
      field before the one it finds is filled. */
  lemma FirstEmptySpec(d: Dim, m: Matrix)
    requires Shaped(d, m)
    ensures FirstEmpty(d, m).None? <==> Full(d, m)
    ensures FirstEmpty(d, m).Some? ==> forall g | 0 <= g < FirstEmpty(d, m).value :: Cell(d, m, g) != 0
  {
    FullByFields(d, m);
    FirstEmptyFromSkips(d, m, 0);
  }

  /** Field f is an empty cell of board m: the search branches there. */
  predicate BranchPoint(d: Dim, m: Matrix, f: int) {
    Shaped(d, m) && 0 <= f < Area(d) && Cell(d, m, f) == 0
  }

  /** Every completion the search pushes from board m, in the order it pushes
      them. A full board is its own and only solution, whatever it holds;
      otherwise the first empty cell is branched on, the candidate pushed
      last (N) explored first. */
  function Solutions(d: Dim, m: Matrix): seq<Matrix>
    requires Shaped(d, m)
    decreases Zeros(m), 1, 0
  {
    match FirstEmpty(d, m)
    case None => [m]
    case Some(f) => Branch(d, m, f, GridSide(d))
  }

  /** The completions below the valid candidates v, v-1, ..., 1 for field f,
      in that order. */
  function Branch(d: Dim, m: Matrix, f: int, v: int): seq<Matrix>
    requires BranchPoint(d, m, f) && 0 <= v <= GridSide(d)
    decreases Zeros(m), 0, v
  {
    if v == 0 then []
    else
      var here :=
        if Allowed(d, m, f, v) then
          FillDecreasesZeros(d, m, f, v);
          Solutions(d, Fill(d, m, f, v))
        else [];
      here + Branch(d, m, f, v - 1)
  }

  /** The number of boards the search pops below m (its search tree). */
  ghost function Nodes(d: Dim, m: Matrix): (r: nat)
    requires Shaped(d, m)
    ensures r >= 1
    decreases Zeros(m), 1, 0
  {
    match FirstEmpty(d, m)
    case None => 1
    case Some(f) => 1 + BranchNodes(d, m, f, GridSide(d))
  }

  ghost function BranchNodes(d: Dim, m: Matrix, f: int, v: int): nat
    requires BranchPoint(d, m, f) && 0 <= v <= GridSide(d)
    decreases Zeros(m), 0, v
  {
    if v == 0 then 0
    else
      var here :=
        if Allowed(d, m, f, v) then
          FillDecreasesZeros(d, m, f, v);
          Nodes(d, Fill(d, m, f, v))
        else 0;
      here + BranchNodes(d, m, f, v - 1)
  }

  predicate AllShaped(d: Dim, stack: seq<Matrix>) {
    forall x | x in stack :: Shaped(d, x)
  }

  /** The completions still to be pushed from a work list whose top is its last element. */
  function Pending(d: Dim, stack: seq<Matrix>): seq<Matrix>
    requires AllShaped(d, stack)
  {
    if |stack| == 0 then []
    else Solutions(d, stack[|stack| - 1]) + Pending(d, stack[..|stack| - 1])
  }

  ghost function PendingNodes(d: Dim, stack: seq<Matrix>): nat
    requires AllShaped(d, stack)
  {
    if |stack| == 0 then 0
    else Nodes(d, stack[|stack| - 1]) + PendingNodes(d, stack[..|stack| - 1])
  }

  lemma PushPending(d: Dim, stack: seq<Matrix>, x: Matrix)
    requires AllShaped(d, stack) && Shaped(d, x)
    ensures AllShaped(d, stack + [x])
    ensures Pending(d, stack + [x]) == Solutions(d, x) + Pending(d, stack)
    ensures PendingNodes(d, stack + [x]) == Nodes(d, x) + PendingNodes(d, stack)
  {
    assert (stack + [x])[..|stack|] == stack;
  }

  lemma PopPending(d: Dim, stack: seq<Matrix>)
    requires AllShaped(d, stack) && |stack| > 0
    ensures AllShaped(d, stack[..|stack| - 1])
    ensures Pending(d, stack) == Solutions(d, stack[|stack| - 1]) + Pending(d, stack[..|stack| - 1])
    ensures PendingNodes(d, stack) == Nodes(d, stack[|stack| - 1]) + PendingNodes(d, stack[..|stack| - 1])
  {
  }

  lemma BranchStep(d: Dim, m: Matrix, f: int, v: int)
    requires BranchPoint(d, m, f) && 0 < v <= GridSide(d)
    ensures Allowed(d, m, f, v) ==> Branch(d, m, f, v) == Solutions(d, Fill(d, m, f, v)) + Branch(d, m, f, v - 1)
    ensures !Allowed(d, m, f, v) ==> Branch(d, m, f, v) == Branch(d, m, f, v - 1)
  {
  }

  lemma BranchNodesStep(d: Dim, m: Matrix, f: int, v: int)
    requires BranchPoint(d, m, f) && 0 < v <= GridSide(d)
    ensures Allowed(d, m, f, v) ==> BranchNodes(d, m, f, v) == Nodes(d, Fill(d, m, f, v)) + BranchNodes(d, m, f, v - 1)
    ensures !Allowed(d, m, f, v) ==> BranchNodes(d, m, f, v) == BranchNodes(d, m, f, v - 1)
  {
  }

  lemma SolutionsStep(d: Dim, m: Matrix)
    requires Shaped(d, m)
    ensures FirstEmpty(d, m).None? ==> Solutions(d, m) == [m] && Nodes(d, m) == 1
    ensures FirstEmpty(d, m).Some? ==>
              && Solutions(d, m) == Branch(d, m, FirstEmpty(d, m).value, GridSide(d))
              && Nodes(d, m) == 1 + BranchNodes(d, m, FirstEmpty(d, m).value, GridSide(d))
  {
  }

  /** The work list after the candidates 1..i for field f of board top have
      been tried on top of the work list stack: it holds, to be explored
      next, exactly the completions below the valid ones among them. */
  ghost predicate PushedUpTo(d: Dim, top: Matrix, field: int, i: int, pushed: seq<Matrix>, stack: seq<Matrix>)
    requires BranchPoint(d, top, field)
    requires 0 <= i <= GridSide(d) && AllShaped(d, stack)
  {
    && AllShaped(d, pushed)
    && Pending(d, pushed) == Branch(d, top, field, i) + Pending(d, stack)
    && PendingNodes(d, pushed) == BranchNodes(d, top, field, i) + PendingNodes(d, stack)
  }

  /** Before any candidate is tried, nothing has been pushed. */
  lemma PushStart(d: Dim, top: Matrix, field: int, stack: seq<Matrix>)
    requires BranchPoint(d, top, field) && AllShaped(d, stack)
    ensures PushedUpTo(d, top, field, 0, stack, stack)
  {
    assert Branch(d, top, field, 0) + Pending(d, stack) == Pending(d, stack);
  }

  /** Candidate v: a copy of top with field set to v is pushed when v is a valid move on top. */
  function PushIfValid(d: Dim, top: Matrix, field: int, v: int, pushed: seq<Matrix>): seq<Matrix>
    requires BranchPoint(d, top, field)
  {
    if Allowed(d, top, field, v) then pushed + [Fill(d, top, field, v)] else pushed
  }

  /** The boards one branching step pushes after trying candidates 1..i for
      field f of board top: a copy of top with the candidate in the field,
      for each valid candidate, in ascending order of candidate. */
  function Children(d: Dim, top: Matrix, field: int, i: int): (r: seq<Matrix>)
    requires BranchPoint(d, top, field) && 0 <= i <= GridSide(d)
    ensures forall k | 0 <= k < |r| ::
              && Shaped(d, r[k]) && 1 <= Cell(d, r[k], field) <= i
              && Allowed(d, top, field, Cell(d, r[k], field))
              && r[k] == Fill(d, top, field, Cell(d, r[k], field))
    ensures forall k, l | 0 <= k < l < |r| :: Cell(d, r[k], field) < Cell(d, r[l], field)
    decreases i
  {
    if i == 0 then []
    else
      FillCells(d, top, field, i);
      PushIfValid(d, top, field, i, Children(d, top, field, i - 1))
  }

  /** Every valid candidate up to i is pushed, and nothing else is. */
  lemma ChildrenAre(d: Dim, top: Matrix, field: int, i: int, v: int)
    requires BranchPoint(d, top, field) && 0 <= i <= GridSide(d)
    ensures Fill(d, top, field, v) in Children(d, top, field, i) <==> 1 <= v <= i && Allowed(d, top, field, v)
  {
    if 1 <= v <= i && Allowed(d, top, field, v) {
      ChildrenComplete(d, top, field, i, v);
    } else if Fill(d, top, field, v) in Children(d, top, field, i) {
      ChildrenSound(d, top, field, i, v);
    }
  }

  /** A pushed copy holds a valid candidate up to i. */
  lemma ChildrenSound(d: Dim, top: Matrix, field: int, i: int, v: int)
    requires BranchPoint(d, top, field) && 0 <= i <= GridSide(d)
    requires Fill(d, top, field, v) in Children(d, top, field, i)
    ensures 1 <= v <= i && Allowed(d, top, field, v)
  {
    var r := Children(d, top, field, i);
    var k :| 0 <= k < |r| && r[k] == Fill(d, top, field, v);
    FillCells(d, top, field, v);
    assert Cell(d, r[k], field) == v;
  }

  /** Every valid candidate up to i is pushed. */
  lemma {:induction false} ChildrenComplete(d: Dim, top: Matrix, field: int, i: int, v: int)
    requires BranchPoint(d, top, field) && 0 <= i <= GridSide(d)
    requires 1 <= v <= i && Allowed(d, top, field, v)
    ensures Fill(d, top, field, v) in Children(d, top, field, i)
    decreases i
  {
    ChildrenStep(d, top, field, i - 1, []);
    if v < i {
      ChildrenComplete(d, top, field, i - 1, v);
    }
  }

  /** Trying candidate i + 1 on top of the stack of children so far yields
      the children up to i + 1. */
  lemma ChildrenStep(d: Dim, top: Matrix, field: int, i: int, stack: seq<Matrix>)
    requires BranchPoint(d, top, field) && 0 <= i < GridSide(d)
    ensures PushIfValid(d, top, field, i + 1, stack + Children(d, top, field, i)) == stack + Children(d, top, field, i + 1)
  {
    if Allowed(d, top, field, i + 1) {
      var kids := Children(d, top, field, i);
      assert stack + kids + [Fill(d, top, field, i + 1)] == stack + (kids + [Fill(d, top, field, i + 1)]);
    }
  }

  lemma PushStep(d: Dim, top: Matrix, field: int, i: int, pushed: seq<Matrix>, stack: seq<Matrix>)
    requires BranchPoint(d, top, field)
    requires 0 <= i < GridSide(d) && AllShaped(d, stack)
    requires PushedUpTo(d, top, field, i, pushed, stack)
    ensures PushedUpTo(d, top, field, i + 1, PushIfValid(d, top, field, i + 1, pushed), stack)
  {
    BranchStep(d, top, field, i + 1);
    BranchNodesStep(d, top, field, i + 1);
    if Allowed(d, top, field, i + 1) {
      var copy := Fill(d, top, field, i + 1);
      PushPending(d, pushed, copy);
      Regroup(Pending(d, pushed), Pending(d, pushed + [copy]), Solutions(d, copy),
              Branch(d, top, field, i), Branch(d, top, field, i + 1), Pending(d, stack));
    }
  }

  lemma Regroup<T>(pending: seq<T>, pending': seq<T>, child: seq<T>, branch: seq<T>, branch': seq<T>, rest: seq<T>)
    requires pending' == child + pending && pending == branch + rest && branch' == child + branch
    ensures pending' == branch' + rest
  {
  }

  /** One branching step of the private solve: each candidate 1..N in turn
      is tried against the popped board, and the valid ones are pushed. */
  method PushCandidates(d: Dim, top: Matrix, field: int, stack: seq<Matrix>) returns (pushed: seq<Matrix>)
    requires BranchPoint(d, top, field)
    requires AllShaped(d, stack)
    ensures pushed == stack + Children(d, top, field, GridSide(d))
    ensures AllShaped(d, pushed)
    ensures Pending(d, pushed) == Branch(d, top, field, GridSide(d)) + Pending(d, stack)
    ensures PendingNodes(d, pushed) == BranchNodes(d, top, field, GridSide(d)) + PendingNodes(d, stack)
  {
    pushed := stack;
    var i := 0;
    PushStart(d, top, field, stack);
    while i < GridSide(d)
      invariant 0 <= i <= GridSide(d)
      invariant PushedUpTo(d, top, field, i, pushed, stack)
      invariant pushed == stack + Children(d, top, field, i)
    {
      PushStep(d, top, field, i, pushed, stack);
      ChildrenStep(d, top, field, i, stack);
      pushed := PushIfValid(d, top, field, i + 1, pushed);
      i := i + 1;
    }
  }

  /** The solved stack followed by everything still pending is the whole enumeration. */
  ghost predicate SolvedSoFar(d: Dim, m: Matrix, solved: seq<Matrix>, stack: seq<Matrix>)
    requires Shaped(d, m)
  {
    AllShaped(d, stack) && solved + Pending(d, stack) == Solutions(d, m)
  }

  lemma Reassociate<T>(a: seq<T>, b: seq<T>, c: seq<T>, whole: seq<T>)
    requires a + (b + c) == whole
    ensures (a + b) + c == whole
  {
  }

  /** top is the last element of the work list stack and rest the elements below it. */
  ghost predicate Popped(d: Dim, stack: seq<Matrix>, top: Matrix, rest: seq<Matrix>) {
    AllShaped(d, stack) && |stack| > 0 && top == stack[|stack| - 1] && rest == stack[..|stack| - 1]
  }

  lemma PopShaped(d: Dim, stack: seq<Matrix>, top: Matrix, rest: seq<Matrix>)
    requires Popped(d, stack, top, rest)
    ensures Shaped(d, top) && AllShaped(d, rest)
    ensures Pending(d, stack) == Solutions(d, top) + Pending(d, rest)
    ensures PendingNodes(d, stack) == Nodes(d, top) + PendingNodes(d, rest)
  {
    PopPending(d, stack);
  }

  /** Popping a full board moves it to the solved stack. */
  lemma PopFull(d: Dim, m: Matrix, solved: seq<Matrix>, stack: seq<Matrix>, top: Matrix, rest: seq<Matrix>)
    requires Shaped(d, m) && SolvedSoFar(d, m, solved, stack) && Popped(d, stack, top, rest)
    requires Shaped(d, top) && FirstEmpty(d, top).None?
    ensures SolvedSoFar(d, m, solved + [top], rest)
    ensures PendingNodes(d, rest) < PendingNodes(d, stack)
  {
    PopShaped(d, stack, top, rest);
    SolutionsStep(d, top);
    Reassociate(solved, [top], Pending(d, rest), Solutions(d, m));
  }

  /** Popping a board with an empty cell replaces it by its candidate children. */
  lemma PopBranch(d: Dim, m: Matrix, solved: seq<Matrix>, stack: seq<Matrix>, top: Matrix, rest: seq<Matrix>,
                  field: int, pushed: seq<Matrix>)
    requires Shaped(d, m) && SolvedSoFar(d, m, solved, stack) && Popped(d, stack, top, rest)
    requires Shaped(d, top) && FirstEmpty(d, top) == Some(field)
    requires BranchPoint(d, top, field) && AllShaped(d, rest) && AllShaped(d, pushed)
    requires Pending(d, pushed) == Branch(d, top, field, GridSide(d)) + Pending(d, rest)
    requires PendingNodes(d, pushed) == BranchNodes(d, top, field, GridSide(d)) + PendingNodes(d, rest)
    ensures SolvedSoFar(d, m, solved, pushed)
    ensures PendingNodes(d, pushed) < PendingNodes(d, stack)
  {
    PopShaped(d, stack, top, rest);
    SolutionsStep(d, top);
  }

  /** One round of the private solve's loop: pop a board; if it has an empty
      cell, push its candidate children; otherwise push the board onto the
      solved stack. */
  method PopStep(d: Dim, m: Matrix, solved: seq<Matrix>, stack: seq<Matrix>)
    returns (solved': seq<Matrix>, stack': seq<Matrix>)
    requires Shaped(d, m) && SolvedSoFar(d, m, solved, stack) && |stack| > 0
    ensures SolvedSoFar(d, m, solved', stack')
    ensures PendingNodes(d, stack') < PendingNodes(d, stack)
  {
    var top := stack[|stack| - 1];
    var rest := stack[..|stack| - 1];
    PopShaped(d, stack, top, rest);
    match FirstEmpty(d, top) {
      case None =>
        PopFull(d, m, solved, stack, top, rest);
        solved', stack' := solved + [top], rest;
      case Some(field) =>
        var pushed := PushCandidates(d, top, field, rest);
        PopBranch(d, m, solved, stack, top, rest, field, pushed);
        solved', stack' := solved, pushed;
    }
  }

  /** The private solve. The search never stops early, so the solved stack
      ends up holding every completion, in push order. */
  method SolveAll(d: Dim, m: Matrix) returns (solved: seq<Matrix>)
    requires Shaped(d, m)
    ensures solved == Solutions(d, m)
  {
    solved := [];
    var stack := [m];
    PushPending(d, [], m);
    assert [] + [m] == stack;
    while |stack| > 0
      invariant SolvedSoFar(d, m, solved, stack)
      decreases PendingNodes(d, stack)
    {
      solved, stack := PopStep(d, m, solved, stack);
    }
  }
}
