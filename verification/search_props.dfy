/** What the enumeration of the private solve promises: every board it
    pushes is a full board keeping the givens (a completion, when the
    givens are consistent and in range); every completion is pushed; and
    the boards are pushed in strictly descending row-major order, so no
    board is pushed twice and the last one pushed is the smallest. */
module SearchProps {
  import opened Wrappers
  import opened Geometry
  import opened Grid
  import opened Rules
  import opened Search

  /** A full board is its own and only solution, whatever it holds. */
  lemma FullIsOwnSolution(d: Dim, m: Matrix)
    requires Full(d, m)
    ensures Solutions(d, m) == [m]
  {
    FirstEmptySpec(d, m);
  }

  /** Filling the branch cell and extending the child extends the parent
      and keeps the filled value. */
  lemma ChildExtends(d: Dim, m: Matrix, f: int, v: int, x: Matrix)
    requires BranchPoint(d, m, f) && v != 0
    requires Extends(d, x, Fill(d, m, f, v))
    ensures Extends(d, x, m) && Cell(d, x, f) == v
  {
    FillCells(d, m, f, v);
  }

  /** Every board of xs is full, keeps the givens of m and holds a number
      in lo..hi at field f. */
  ghost predicate FilledAt(d: Dim, m: Matrix, f: int, lo: int, hi: int, xs: seq<Matrix>) {
    && Shaped(d, m) && 0 <= f < Area(d)
    && forall x | x in xs :: Full(d, x) && Extends(d, x, m) && lo <= Cell(d, x, f) <= hi
  }

  lemma FilledConcat(d: Dim, m: Matrix, f: int, v: int, xs: seq<Matrix>, ys: seq<Matrix>)
    requires 1 <= v && FilledAt(d, m, f, v, v, xs) && FilledAt(d, m, f, 1, v - 1, ys)
    ensures FilledAt(d, m, f, 1, v, xs + ys)
  {
  }

  lemma FilledWiden(d: Dim, m: Matrix, f: int, v: int, xs: seq<Matrix>)
    requires FilledAt(d, m, f, 1, v - 1, xs)
    ensures FilledAt(d, m, f, 1, v, xs)
  {
  }

  /** Every board the search pushes below m is full and keeps m's givens. */
  lemma {:induction false} SolutionsExtend(d: Dim, m: Matrix)
    requires Shaped(d, m)
    ensures forall x | x in Solutions(d, m) :: Full(d, x) && Extends(d, x, m)
    decreases Zeros(m), 1, 0, 0
  {
    match FirstEmpty(d, m)
    case None => FirstEmptySpec(d, m);
    case Some(f) => BranchExtend(d, m, f, GridSide(d));
  }

  /** Below the candidates v, ..., 1 for field f, every pushed board is full,
      keeps m's givens and holds one of those candidates at f. */
  lemma {:induction false} BranchExtend(d: Dim, m: Matrix, f: int, v: int)
    requires BranchPoint(d, m, f) && 0 <= v <= GridSide(d)
    ensures FilledAt(d, m, f, 1, v, Branch(d, m, f, v))
    decreases Zeros(m), 0, v, 3
  {
    if v > 0 {
      BranchExtend(d, m, f, v - 1);
      StepExtend(d, m, f, v);
    }
  }

  lemma {:induction false} StepExtend(d: Dim, m: Matrix, f: int, v: int)
    requires BranchPoint(d, m, f) && 0 < v <= GridSide(d)
    requires FilledAt(d, m, f, 1, v - 1, Branch(d, m, f, v - 1))
    ensures FilledAt(d, m, f, 1, v, Branch(d, m, f, v))
    decreases Zeros(m), 0, v, 2
  {
    if Allowed(d, m, f, v) {
      ChildStepExtend(d, m, f, v);
    } else {
      BranchStep(d, m, f, v);
      FilledWiden(d, m, f, v, Branch(d, m, f, v - 1));
    }
  }

  lemma {:induction false} ChildStepExtend(d: Dim, m: Matrix, f: int, v: int)
    requires BranchPoint(d, m, f) && 0 < v <= GridSide(d) && Allowed(d, m, f, v)
    requires FilledAt(d, m, f, 1, v - 1, Branch(d, m, f, v - 1))
    ensures FilledAt(d, m, f, 1, v, Branch(d, m, f, v))
    decreases Zeros(m), 0, v, 1
  {
    ChildrenExtend(d, m, f, v);
    FilledConcat(d, m, f, v, Solutions(d, Fill(d, m, f, v)), Branch(d, m, f, v - 1));
    BranchStep(d, m, f, v);
  }

  /** Every board pushed below the child that fills f with v is full, keeps
      m's givens and holds v at f. */
  lemma {:induction false} ChildrenExtend(d: Dim, m: Matrix, f: int, v: int)
    requires BranchPoint(d, m, f) && 1 <= v <= GridSide(d) && Allowed(d, m, f, v)
    ensures FilledAt(d, m, f, v, v, Solutions(d, Fill(d, m, f, v)))
    decreases Zeros(m), 0, v, 0
  {
    var c := Fill(d, m, f, v);
    FillDecreasesZeros(d, m, f, v);
    SolutionsExtend(d, c);
    forall x | x in Solutions(d, c)
      ensures Extends(d, x, m) && Cell(d, x, f) == v
    {
      ChildExtends(d, m, f, v, x);
    }
  }

  /** A valid move on an in-range board keeps it in range. */
  lemma FillInRange(d: Dim, m: Matrix, f: int, v: int)
    requires InRange(d, m) && 0 <= f < Area(d) && 1 <= v <= GridSide(d)
    ensures InRange(d, Fill(d, m, f, v))
  {
    FillCells(d, m, f, v);
  }

  /** Every board of xs obeys the rules and holds only numbers 0..N. */
  ghost predicate AllObeyRules(d: Dim, xs: seq<Matrix>)
    decreases |xs|
  {
    |xs| == 0 || (Consistent(d, xs[0]) && InRange(d, xs[0]) && AllObeyRules(d, xs[1..]))
  }

  lemma {:induction false} ObeyConcat(d: Dim, xs: seq<Matrix>, ys: seq<Matrix>)
    requires AllObeyRules(d, xs) && AllObeyRules(d, ys)
    ensures AllObeyRules(d, xs + ys)
    decreases |xs|
  {
    if |xs| > 0 {
      assert (xs + ys)[0] == xs[0];
      assert (xs + ys)[1..] == xs[1..] + ys;
      ObeyConcat(d, xs[1..], ys);
    } else {
      assert xs + ys == ys;
    }
  }

  lemma {:induction false} ObeyMember(d: Dim, xs: seq<Matrix>, x: Matrix)
    requires AllObeyRules(d, xs) && x in xs
    ensures Consistent(d, x) && InRange(d, x)
    decreases |xs|
  {
    if xs[0] != x {
      assert x in xs[1..];
      ObeyMember(d, xs[1..], x);
    }
  }

  /** From consistent, in-range givens, every pushed board obeys the rules
      and holds only numbers 0..N. */
  lemma {:induction false} SolutionsObeyRules(d: Dim, m: Matrix)
    requires Consistent(d, m) && InRange(d, m)
    ensures AllObeyRules(d, Solutions(d, m))
    decreases Zeros(m), 1, 0, 0
  {
    match FirstEmpty(d, m)
    case None =>
    case Some(f) => BranchObeysRules(d, m, f, GridSide(d));
  }

  lemma {:induction false} BranchObeysRules(d: Dim, m: Matrix, f: int, v: int)
    requires BranchPoint(d, m, f) && 0 <= v <= GridSide(d)
    requires Consistent(d, m) && InRange(d, m)
    ensures AllObeyRules(d, Branch(d, m, f, v))
    decreases Zeros(m), 0, v, 2
  {
    if v > 0 {
      BranchObeysRules(d, m, f, v - 1);
      if Allowed(d, m, f, v) {
        ChildStepObeys(d, m, f, v);
      } else {
        BranchStep(d, m, f, v);
      }
    }
  }

  lemma {:induction false} ChildStepObeys(d: Dim, m: Matrix, f: int, v: int)
    requires BranchPoint(d, m, f) && 0 < v <= GridSide(d)
    requires Consistent(d, m) && InRange(d, m) && Allowed(d, m, f, v)
    requires AllObeyRules(d, Branch(d, m, f, v - 1))
    ensures AllObeyRules(d, Branch(d, m, f, v))
    decreases Zeros(m), 0, v, 1
  {
    ChildObeysRules(d, m, f, v);
    SolutionsObeyRules(d, Fill(d, m, f, v));
    ObeyConcat(d, Solutions(d, Fill(d, m, f, v)), Branch(d, m, f, v - 1));
    BranchStep(d, m, f, v);
  }

  /** A child the search pushes from consistent, in-range givens is itself
      consistent and in range, with one empty cell fewer. */
  lemma ChildObeysRules(d: Dim, m: Matrix, f: int, v: int)
    requires BranchPoint(d, m, f) && Consistent(d, m) && InRange(d, m) && Allowed(d, m, f, v)
    ensures Consistent(d, Fill(d, m, f, v)) && InRange(d, Fill(d, m, f, v))
    ensures Zeros(Fill(d, m, f, v)) < Zeros(m)
  {
    AllowedIsValidMove(d, m, f, v);
    ValidMoveKeepsConsistent(d, m, f, v);
    FillInRange(d, m, f, v);
    FillDecreasesZeros(d, m, f, v);
  }

  /** Soundness: from consistent, in-range givens, every board the search
      pushes is a completion of them. */
  lemma Soundness(d: Dim, m: Matrix)
    requires Consistent(d, m) && InRange(d, m)
    ensures forall x | x in Solutions(d, m) :: IsCompletion(d, m, x)
  {
    SolutionsExtend(d, m);
    SolutionsObeyRules(d, m);
    forall x | x in Solutions(d, m)
      ensures Consistent(d, x) && InRange(d, x)
    {
      ObeyMember(d, Solutions(d, m), x);
    }
  }

  /** Two boards of the same shape that agree on every cell are equal. */
  lemma SameCells(d: Dim, x: Matrix, y: Matrix)
    requires Shaped(d, x) && Shaped(d, y)
    requires forall i, j | 0 <= i < GridSide(d) && 0 <= j < GridSide(d) :: x[i][j] == y[i][j]
    ensures x == y
  {
    forall i | 0 <= i < GridSide(d)
      ensures x[i] == y[i]
    {
    }
  }

  /** The number a completion holds at an empty cell of m passes the
      search's test: no peer in m can hold it, since the completion keeps
      m's givens and obeys the rules. */
  lemma CompletionValueAllowed(d: Dim, m: Matrix, f: int, x: Matrix)
    requires BranchPoint(d, m, f) && IsCompletion(d, m, x)
    ensures 1 <= Cell(d, x, f) <= GridSide(d)
    ensures Allowed(d, m, f, Cell(d, x, f))
  {
    var n := GridSide(d);
    FieldSplit(d, f);
    var r, c := DivN(d, f), ModN(d, f);
    var v := x[r][c];
    forall i, j | 0 <= i < n && 0 <= j < n && Peer(d, i, j, r, c)
      ensures m[i][j] != v
    {
      assert Peer(d, r, c, i, j);
    }
  }

  /** The completion also completes the child that fills f with its value. */
  lemma CompletionOfChild(d: Dim, m: Matrix, f: int, x: Matrix)
    requires BranchPoint(d, m, f) && IsCompletion(d, m, x)
    ensures IsCompletion(d, Fill(d, m, f, Cell(d, x, f)), x)
  {
    FillCells(d, m, f, Cell(d, x, f));
  }

  /** The boards pushed below a valid candidate v are among those pushed
      below the candidates w, ..., 1 whenever v <= w. */
  lemma {:induction false} BranchIncludes(d: Dim, m: Matrix, f: int, w: int, v: int, x: Matrix)
    requires BranchPoint(d, m, f) && 1 <= v <= w <= GridSide(d)
    requires Allowed(d, m, f, v)
    requires x in Solutions(d, Fill(d, m, f, v))
    ensures x in Branch(d, m, f, w)
    decreases w
  {
    if v < w {
      BranchIncludes(d, m, f, w - 1, v, x);
      BranchKeepsRest(d, m, f, w, x);
    } else {
      BranchKeepsHere(d, m, f, v, x);
    }
  }

  lemma BranchKeepsRest(d: Dim, m: Matrix, f: int, w: int, x: Matrix)
    requires BranchPoint(d, m, f) && 1 <= w <= GridSide(d)
    requires x in Branch(d, m, f, w - 1)
    ensures x in Branch(d, m, f, w)
  {
    BranchStep(d, m, f, w);
    if Allowed(d, m, f, w) {
      InConcat(x, Solutions(d, Fill(d, m, f, w)), Branch(d, m, f, w - 1));
    }
  }

  lemma BranchKeepsHere(d: Dim, m: Matrix, f: int, v: int, x: Matrix)
    requires BranchPoint(d, m, f) && 1 <= v <= GridSide(d) && Allowed(d, m, f, v)
    requires x in Solutions(d, Fill(d, m, f, v))
    ensures x in Branch(d, m, f, v)
  {
    BranchStep(d, m, f, v);
    InConcat(x, Solutions(d, Fill(d, m, f, v)), Branch(d, m, f, v - 1));
  }

  lemma InConcat<T>(x: T, a: seq<T>, b: seq<T>)
    ensures x in a + b <==> x in a || x in b
  {
  }

  /** Completeness: every completion of m is pushed, whatever m holds. */
  lemma {:induction false} Completeness(d: Dim, m: Matrix, x: Matrix)
    requires Shaped(d, m) && IsCompletion(d, m, x)
    ensures x in Solutions(d, m)
    decreases Zeros(m)
  {
    match FirstEmpty(d, m)
    case None =>
      FirstEmptySpec(d, m);
      SameCells(d, x, m);
    case Some(f) =>
      CompletionValueAllowed(d, m, f, x);
      var v := Cell(d, x, f);
      CompletionOfChild(d, m, f, x);
      FillDecreasesZeros(d, m, f, v);
      Completeness(d, Fill(d, m, f, v), x);
      BranchIncludes(d, m, f, GridSide(d), v, x);
  }

  /** Reading fields k, k+1, ... in row-major order, board a holds the
      smaller number at the first field where the two boards differ. */
  predicate LessFrom(d: Dim, a: Matrix, b: Matrix, k: nat)
    requires Shaped(d, a) && Shaped(d, b)
    decreases Area(d) - k
  {
    && k < Area(d)
    && (|| Cell(d, a, k) < Cell(d, b, k)
        || (Cell(d, a, k) == Cell(d, b, k) && LessFrom(d, a, b, k + 1)))
  }

  /** Board a precedes board b in row-major order: at the first field where
      they differ, a holds the smaller number. */
  predicate RowMajorLess(d: Dim, a: Matrix, b: Matrix) {
    Shaped(d, a) && Shaped(d, b) && LessFrom(d, a, b, 0)
  }

  /** a precedes b from field k on exactly when they agree on fields k..f-1
      and a is smaller at f, for some f. */
  lemma {:induction false} LessFromAt(d: Dim, a: Matrix, b: Matrix, k: nat, f: nat)
    requires Shaped(d, a) && Shaped(d, b) && k <= f < Area(d)
    requires forall g | k <= g < f :: Cell(d, a, g) == Cell(d, b, g)
    requires Cell(d, a, f) < Cell(d, b, f)
    ensures LessFrom(d, a, b, k)
    decreases f - k
  {
    if k < f {
      LessFromAt(d, a, b, k + 1, f);
    }
  }

  /** No board precedes itself. */
  lemma {:induction false} LessFromIrreflexive(d: Dim, a: Matrix, k: nat)
    requires Shaped(d, a)
    ensures !LessFrom(d, a, a, k)
    decreases Area(d) - k
  {
    if k < Area(d) {
      LessFromIrreflexive(d, a, k + 1);
    }
  }

  lemma RowMajorIrreflexive(d: Dim, a: Matrix)
    ensures !RowMajorLess(d, a, a)
  {
    if Shaped(d, a) {
      LessFromIrreflexive(d, a, 0);
    }
  }

  /** Each board of the list comes after every board behind it. */
  ghost predicate Descending(d: Dim, xs: seq<Matrix>) {
    forall i, j | 0 <= i < j < |xs| :: RowMajorLess(d, xs[j], xs[i])
  }

  lemma DescendingConcat(d: Dim, xs: seq<Matrix>, ys: seq<Matrix>)
    requires Descending(d, xs) && Descending(d, ys)
    requires forall x, y | x in xs && y in ys :: RowMajorLess(d, y, x)
    ensures Descending(d, xs + ys)
  {
    var zs := xs + ys;
    forall i, j | 0 <= i < j < |zs|
      ensures RowMajorLess(d, zs[j], zs[i])
    {
      if j < |xs| {
        assert zs[i] == xs[i] && zs[j] == xs[j];
      } else if i >= |xs| {
        assert zs[i] == ys[i - |xs|] && zs[j] == ys[j - |xs|];
      } else {
        assert zs[i] == xs[i] && zs[j] == ys[j - |xs|];
      }
    }
  }

  /** Two boards keeping the givens of m, all of whose fields before f are
      given, are ordered by the number they hold at f. */
  lemma OrderedAtBranch(d: Dim, m: Matrix, f: int, x: Matrix, y: Matrix)
    requires Shaped(d, m) && FirstEmpty(d, m) == Some(f)
    requires Extends(d, x, m) && Extends(d, y, m)
    requires Cell(d, y, f) < Cell(d, x, f)
    ensures RowMajorLess(d, y, x)
  {
    FirstEmptySpec(d, m);
    forall g | 0 <= g < f
      ensures Cell(d, y, g) == Cell(d, x, g)
    {
      FieldSplit(d, g);
      assert Cell(d, m, g) != 0;
    }
    LessFromAt(d, y, x, 0, f);
  }

  /** The search pushes its boards in strictly descending row-major order. */
  lemma {:induction false} SolutionsDescending(d: Dim, m: Matrix)
    requires Shaped(d, m)
    ensures Descending(d, Solutions(d, m))
    decreases Zeros(m), 1, 0, 0
  {
    match FirstEmpty(d, m)
    case None =>
    case Some(f) => BranchDescending(d, m, f, GridSide(d));
  }

  lemma {:induction false} BranchDescending(d: Dim, m: Matrix, f: int, v: int)
    requires Shaped(d, m) && FirstEmpty(d, m) == Some(f) && 0 <= v <= GridSide(d)
    ensures Descending(d, Branch(d, m, f, v))
    decreases Zeros(m), 0, v, 2
  {
    if v > 0 {
      BranchDescending(d, m, f, v - 1);
      StepDescending(d, m, f, v);
    }
  }

  lemma {:induction false} StepDescending(d: Dim, m: Matrix, f: int, v: int)
    requires Shaped(d, m) && FirstEmpty(d, m) == Some(f) && 0 < v <= GridSide(d)
    requires Descending(d, Branch(d, m, f, v - 1))
    ensures Descending(d, Branch(d, m, f, v))
    decreases Zeros(m), 0, v, 1
  {
    if Allowed(d, m, f, v) {
      ChildDescending(d, m, f, v);
    } else {
      BranchStep(d, m, f, v);
    }
  }

  lemma {:induction false} ChildDescending(d: Dim, m: Matrix, f: int, v: int)
    requires Shaped(d, m) && FirstEmpty(d, m) == Some(f) && 0 < v <= GridSide(d)
    requires Allowed(d, m, f, v) && Descending(d, Branch(d, m, f, v - 1))
    ensures Descending(d, Branch(d, m, f, v))
    decreases Zeros(m), 0, v, 0
  {
    FillDecreasesZeros(d, m, f, v);
    SolutionsDescending(d, Fill(d, m, f, v));
    ChildrenExtend(d, m, f, v);
    BranchExtend(d, m, f, v - 1);
    OrderedConcat(d, m, f, v, Solutions(d, Fill(d, m, f, v)), Branch(d, m, f, v - 1));
    BranchStep(d, m, f, v);
  }

  /** The boards holding v at the branch field, listed in descending order,
      followed by those holding less there, again in descending order, are
      in descending order. */
  lemma OrderedConcat(d: Dim, m: Matrix, f: int, v: int, xs: seq<Matrix>, ys: seq<Matrix>)
    requires Shaped(d, m) && FirstEmpty(d, m) == Some(f)
    requires Descending(d, xs) && Descending(d, ys)
    requires FilledAt(d, m, f, v, v, xs) && FilledAt(d, m, f, 1, v - 1, ys)
    ensures Descending(d, xs + ys)
  {
    forall x, y | x in xs && y in ys
      ensures RowMajorLess(d, y, x)
    {
      OrderedAtBranch(d, m, f, x, y);
    }
    DescendingConcat(d, xs, ys);
  }

  /** A descending list holds no board twice. */
  lemma DescendingDistinct(d: Dim, xs: seq<Matrix>)
    requires Descending(d, xs)
    ensures forall i, j | 0 <= i < j < |xs| :: xs[i] != xs[j]
  {
    forall i, j | 0 <= i < j < |xs|
      ensures xs[i] != xs[j]
    {
      if xs[i] == xs[j] {
        RowMajorIrreflexive(d, xs[i]);
      }
    }
  }

  /** m has exactly one completion. */
  ghost predicate UniqueCompletion(d: Dim, m: Matrix) {
    && (exists x :: IsCompletion(d, m, x))
    && forall x, y | IsCompletion(d, m, x) && IsCompletion(d, m, y) :: x == y
  }

  /** Every completion of m is pushed. */
  lemma AllCompletionsPushed(d: Dim, m: Matrix)
    requires Shaped(d, m)
    ensures forall x | IsCompletion(d, m, x) :: x in Solutions(d, m)
  {
    forall x | IsCompletion(d, m, x)
      ensures x in Solutions(d, m)
    {
      Completeness(d, m, x);
    }
  }

  /** A list without repeats that holds exactly the completions of m has one
      element exactly when m has one completion, and some element exactly
      when m has some completion. */
  lemma ListedCompletions(d: Dim, m: Matrix, xs: seq<Matrix>)
    requires forall i, j | 0 <= i < j < |xs| :: xs[i] != xs[j]
    requires forall x | x in xs :: IsCompletion(d, m, x)
    requires forall x | IsCompletion(d, m, x) :: x in xs
    ensures (exists x :: IsCompletion(d, m, x)) <==> |xs| > 0
    ensures UniqueCompletion(d, m) <==> |xs| == 1
  {
    if |xs| > 0 {
      assert IsCompletion(d, m, xs[0]);
    }
    if |xs| > 1 {
      assert IsCompletion(d, m, xs[0]) && IsCompletion(d, m, xs[1]) && xs[0] != xs[1];
    }
  }

  /** From consistent, in-range givens, m has a completion exactly when the
      search pushes some board, and exactly one completion exactly when the
      search pushes exactly one board. */
  lemma UniqueIffOnePushed(d: Dim, m: Matrix)
    requires Consistent(d, m) && InRange(d, m)
    ensures (exists x :: IsCompletion(d, m, x)) <==> |Solutions(d, m)| > 0
    ensures UniqueCompletion(d, m) <==> |Solutions(d, m)| == 1
  {
    Soundness(d, m);
    AllCompletionsPushed(d, m);
    SolutionsDescending(d, m);
    DescendingDistinct(d, Solutions(d, m));
    ListedCompletions(d, m, Solutions(d, m));
  }

  /** In a descending list the last board precedes every other board. */
  lemma LastLeast(d: Dim, xs: seq<Matrix>, x: Matrix)
    requires Descending(d, xs) && x in xs && x != xs[|xs| - 1]
    ensures RowMajorLess(d, xs[|xs| - 1], x)
  {
    var i :| 0 <= i < |xs| && xs[i] == x;
    assert i < |xs| - 1;
  }

  /** The last board pushed precedes every other completion of m. */
  lemma LastIsSmallest(d: Dim, m: Matrix, x: Matrix)
    requires Shaped(d, m) && |Solutions(d, m)| > 0
    requires IsCompletion(d, m, x) && x != Solutions(d, m)[|Solutions(d, m)| - 1]
    ensures RowMajorLess(d, Solutions(d, m)[|Solutions(d, m)| - 1], x)
  {
    Completeness(d, m, x);
    SolutionsDescending(d, m);
    LastLeast(d, Solutions(d, m), x);
  }
}
