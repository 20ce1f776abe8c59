/** Optimal-move search: minimax with alpha-beta pruning over the rules of
    module TicTacToe, proved against the unpruned minimax value. */
module Search {
  import opened TicTacToe

  /** Stand-ins for the source's `-math.inf` and `math.inf`: every score of
      a board lies strictly between them. */
  const NegInf: int := -2
  const PosInf: int := 2

  function Max(x: int, y: int): int {
    if x >= y then x else y
  }

  function Min(x: int, y: int): int {
    if x <= y then x else y
  }

  // ---------------------------------------------------------------------
  // Unpruned values

  /** The exact value of `b` when the maximiser moves next and the two
      sides alternate from there: `max_value` without any pruning. */
  function MaxScore(b: Board): (v: int)
    decreases Count(b, Empty), 1
    ensures -1 <= v <= 1
  {
    if Terminal(b) then Utility(b) else OpenBoardHasMove(b); MaxOver(b, EmptyCells(b))
  }

  /** The exact value of `b` when the minimiser moves next. */
  function MinScore(b: Board): (v: int)
    decreases Count(b, Empty), 1
    ensures -1 <= v <= 1
  {
    if Terminal(b) then Utility(b) else OpenBoardHasMove(b); MinOver(b, EmptyCells(b))
  }

  /** The best `MinScore` over the successors by `acts`, `NegInf` for none. */
  function MaxOver(b: Board, acts: seq<Action>): (v: int)
    requires forall a :: a in acts ==> InRange(a) && At(b, a) == Empty
    decreases Count(b, Empty), 0, |acts|
    ensures acts == [] ==> v == NegInf
    ensures acts != [] ==> -1 <= v <= 1
  {
    if acts == [] then NegInf
    else
      SuccessorFewerEmpty(b, acts[|acts| - 1]);
      Max(MaxOver(b, acts[..|acts| - 1]), MinScore(Successor(b, acts[|acts| - 1])))
  }

  /** The least `MaxScore` over the successors by `acts`, `PosInf` for none. */
  function MinOver(b: Board, acts: seq<Action>): (v: int)
    requires forall a :: a in acts ==> InRange(a) && At(b, a) == Empty
    decreases Count(b, Empty), 0, |acts|
    ensures acts == [] ==> v == PosInf
    ensures acts != [] ==> -1 <= v <= 1
  {
    if acts == [] then PosInf
    else
      SuccessorFewerEmpty(b, acts[|acts| - 1]);
      Min(MinOver(b, acts[..|acts| - 1]), MaxScore(Successor(b, acts[|acts| - 1])))
  }

  /** Every successor's value is at most `MaxOver`. */
  lemma {:induction false} MaxOverBounds(b: Board, acts: seq<Action>)
    requires forall a :: a in acts ==> InRange(a) && At(b, a) == Empty
    ensures forall k :: 0 <= k < |acts| ==> MinScore(Successor(b, acts[k])) <= MaxOver(b, acts)
  {
    if acts != [] {
      var n := |acts|;
      var init := acts[..n - 1];
      MaxOverBounds(b, init);
      assert MaxOver(b, acts) == Max(MaxOver(b, init), MinScore(Successor(b, acts[n - 1])));
      forall k | 0 <= k < n - 1 ensures MinScore(Successor(b, acts[k])) <= MaxOver(b, acts) {
        assert init[k] == acts[k];
      }
    }
  }

  /** Some successor's value reaches `MaxOver` when there is a successor. */
  lemma {:induction false} MaxOverAttained(b: Board, acts: seq<Action>)
    requires forall a :: a in acts ==> InRange(a) && At(b, a) == Empty
    ensures acts != [] ==> exists k :: 0 <= k < |acts| && MinScore(Successor(b, acts[k])) == MaxOver(b, acts)
  {
    if acts != [] {
      var n := |acts|;
      var init := acts[..n - 1];
      MaxOverAttained(b, init);
      assert MaxOver(b, acts) == Max(MaxOver(b, init), MinScore(Successor(b, acts[n - 1])));
      if init != [] && MaxOver(b, init) >= MinScore(Successor(b, acts[n - 1])) {
        var k :| 0 <= k < n - 1 && MinScore(Successor(b, init[k])) == MaxOver(b, init);
        assert init[k] == acts[k];
      } else {
        assert MinScore(Successor(b, acts[n - 1])) == MaxOver(b, acts);
      }
    }
  }

  /** Every successor's value is at least `MinOver`. */
  lemma {:induction false} MinOverBounds(b: Board, acts: seq<Action>)
    requires forall a :: a in acts ==> InRange(a) && At(b, a) == Empty
    ensures forall k :: 0 <= k < |acts| ==> MaxScore(Successor(b, acts[k])) >= MinOver(b, acts)
  {
    if acts != [] {
      var n := |acts|;
      var init := acts[..n - 1];
      MinOverBounds(b, init);
      assert MinOver(b, acts) == Min(MinOver(b, init), MaxScore(Successor(b, acts[n - 1])));
      forall k | 0 <= k < n - 1 ensures MaxScore(Successor(b, acts[k])) >= MinOver(b, acts) {
        assert init[k] == acts[k];
      }
    }
  }

  /** Some successor's value reaches `MinOver` when there is a successor. */
  lemma {:induction false} MinOverAttained(b: Board, acts: seq<Action>)
    requires forall a :: a in acts ==> InRange(a) && At(b, a) == Empty
    ensures acts != [] ==> exists k :: 0 <= k < |acts| && MaxScore(Successor(b, acts[k])) == MinOver(b, acts)
  {
    if acts != [] {
      var n := |acts|;
      var init := acts[..n - 1];
      MinOverAttained(b, init);
      assert MinOver(b, acts) == Min(MinOver(b, init), MaxScore(Successor(b, acts[n - 1])));
      if init != [] && MinOver(b, init) <= MaxScore(Successor(b, acts[n - 1])) {
        var k :| 0 <= k < n - 1 && MaxScore(Successor(b, init[k])) == MinOver(b, init);
        assert init[k] == acts[k];
      } else {
        assert MaxScore(Successor(b, acts[n - 1])) == MinOver(b, acts);
      }
    }
  }

  /** Exploring more actions can only raise the running maximum. */
  lemma MaxOverPrefix(b: Board, acts: seq<Action>, i: nat)
    requires forall a :: a in acts ==> InRange(a) && At(b, a) == Empty
    requires i <= |acts|
    ensures MaxOver(b, acts[..i]) <= MaxOver(b, acts)
  {
    var init := acts[..i];
    MaxOverAttained(b, init);
    MaxOverBounds(b, acts);
    if init != [] {
      var k :| 0 <= k < i && MinScore(Successor(b, init[k])) == MaxOver(b, init);
      assert init[k] == acts[k];
    }
  }

  /** Exploring more actions can only lower the running minimum. */
  lemma MinOverPrefix(b: Board, acts: seq<Action>, i: nat)
    requires forall a :: a in acts ==> InRange(a) && At(b, a) == Empty
    requires i <= |acts|
    ensures MinOver(b, acts[..i]) >= MinOver(b, acts)
  {
    var init := acts[..i];
    MinOverAttained(b, init);
    MinOverBounds(b, acts);
    if init != [] {
      var k :| 0 <= k < i && MaxScore(Successor(b, init[k])) == MinOver(b, init);
      assert init[k] == acts[k];
    }
  }

  lemma MaxOverSnoc(b: Board, acts: seq<Action>, i: nat)
    requires forall a :: a in acts ==> InRange(a) && At(b, a) == Empty
    requires i < |acts|
    ensures MaxOver(b, acts[..i + 1]) == Max(MaxOver(b, acts[..i]), MinScore(Successor(b, acts[i])))
  {
    assert acts[..i + 1][..i] == acts[..i];
  }

  lemma MinOverSnoc(b: Board, acts: seq<Action>, i: nat)
    requires forall a :: a in acts ==> InRange(a) && At(b, a) == Empty
    requires i < |acts|
    ensures MinOver(b, acts[..i + 1]) == Min(MinOver(b, acts[..i]), MaxScore(Successor(b, acts[i])))
  {
    assert acts[..i + 1][..i] == acts[..i];
  }

  /** One iteration of `max_value`'s loop, on plain integers: `m` is the
      exact maximum over the explored children, `v` the running value,
      `alpha'` the current lower bound, `w` the pruned value of the next
      child, fail-soft with respect to its exact value `c` in the window
      (`alpha'`, `beta`). The loop's invariant carries over to the
      extended prefix, or else the loop breaks with a lower bound. */
  lemma MaxStep(alpha: int, beta: int, alpha': int, first: bool, v: int, m: int, w: int, c: int)
    requires alpha' == (if first then alpha else Max(alpha, v)) && alpha' < beta
    requires first ==> v == NegInf && m == NegInf
    requires !first ==> -1 <= v <= 1
    requires -1 <= w <= 1
    requires v <= alpha ==> m <= v
    requires alpha < v ==> m == v
    requires w <= alpha' ==> c <= w
    requires beta <= w ==> w <= c
    requires alpha' < w < beta ==> w == c
    ensures Max(alpha', Max(v, w)) == Max(alpha, Max(v, w))
    ensures Max(v, w) <= alpha ==> Max(m, c) <= Max(v, w)
    ensures alpha < Max(v, w) && Max(alpha', Max(v, w)) < beta ==> Max(m, c) == Max(v, w)
    ensures beta <= Max(alpha', Max(v, w)) ==> beta <= Max(v, w) <= Max(m, c)
  {
  }

  /** One iteration of `min_value`'s loop, the mirror image of `MaxStep`. */
  lemma MinStep(alpha: int, beta: int, beta': int, first: bool, v: int, m: int, w: int, c: int)
    requires beta' == (if first then beta else Min(beta, v)) && alpha < beta'
    requires first ==> v == PosInf && m == PosInf
    requires !first ==> -1 <= v <= 1
    requires -1 <= w <= 1
    requires beta <= v ==> m >= v
    requires v < beta ==> m == v
    requires w <= alpha ==> c <= w
    requires beta' <= w ==> w <= c
    requires alpha < w < beta' ==> w == c
    ensures Min(beta', Min(v, w)) == Min(beta, Min(v, w))
    ensures beta <= Min(v, w) ==> Min(m, c) >= Min(v, w)
    ensures Min(v, w) < beta && alpha < Min(beta', Min(v, w)) ==> Min(m, c) == Min(v, w)
    ensures Min(beta', Min(v, w)) <= alpha ==> Min(m, c) <= Min(v, w) <= alpha
  {
  }

  // ---------------------------------------------------------------------
  // max_value and min_value

  /** Alpha-beta value of `b` for the maximiser within the window
      (`alpha`, `beta`), fail-soft: a result at or below `alpha` is an upper
      bound of the exact value, one at or above `beta` a lower bound, and one
      strictly inside the window is the exact value. With the full window
      the result is exact. */
  method MaxValue(b: Board, alpha: int, beta: int) returns (v: int)
    requires alpha < beta
    decreases Count(b, Empty), 2
    ensures Terminal(b) ==> v == Utility(b)
    ensures -1 <= v <= 1
    ensures v <= alpha ==> MaxScore(b) <= v
    ensures beta <= v ==> v <= MaxScore(b)
    ensures alpha < v < beta ==> v == MaxScore(b)
    ensures alpha <= NegInf && PosInf <= beta ==> v == MaxScore(b)
  {
    if Terminal(b) {
      return Utility(b);
    }
    var r := Actions(b);
    v := MaxValueLoop(b, r.value, alpha, beta);
  }

  /** The loop of `max_value` over the legal moves: the running maximum of
      the replies' `min_value`s, with `alpha` raised to it and the loop cut
      off once `alpha` reaches `beta`. The result is fail-soft with respect
      to the exact maximum `MaxOver` of the moves. */
  method MaxValueLoop(b: Board, acts: seq<Action>, alpha: int, beta: int) returns (v: int)
    requires !Terminal(b) && acts == EmptyCells(b) && alpha < beta
    decreases Count(b, Empty), 1
    ensures -1 <= v <= 1
    ensures v <= alpha ==> MaxOver(b, acts) <= v
    ensures beta <= v ==> v <= MaxOver(b, acts)
    ensures alpha < v < beta ==> v == MaxOver(b, acts)
  {
    OpenBoardHasMove(b);
    assert acts[..|acts|] == acts;
    v := NegInf;
    var alpha' := alpha;
    ghost var m := NegInf;
    var i := 0;
    while i < |acts|
      invariant 0 <= i <= |acts| && m == MaxOver(b, acts[..i])
      invariant alpha' == (if i == 0 then alpha else Max(alpha, v)) && alpha' < beta
      invariant i == 0 ==> v == NegInf
      invariant i > 0 ==> -1 <= v <= 1
      invariant v <= alpha ==> m <= v
      invariant alpha < v ==> m == v
    {
      var w := MinValueOfMove(b, acts[i], alpha', beta);
      MaxOverSnoc(b, acts, i);
      ghost var c := MinScore(Successor(b, acts[i]));
      MaxStep(alpha, beta, alpha', i == 0, v, m, w, c);
      m := Max(m, c);
      v := Max(v, w);
      alpha' := Max(alpha', v);
      if alpha' >= beta {
        MaxOverPrefix(b, acts, i + 1);
        break;
      }
      i := i + 1;
    }
  }

  /** Alpha-beta value of `b` for the minimiser, fail-soft in the same sense
      as `MaxValue`. */
  method MinValue(b: Board, alpha: int, beta: int) returns (v: int)
    requires alpha < beta
    decreases Count(b, Empty), 2
    ensures Terminal(b) ==> v == Utility(b)
    ensures -1 <= v <= 1
    ensures v <= alpha ==> MinScore(b) <= v
    ensures beta <= v ==> v <= MinScore(b)
    ensures alpha < v < beta ==> v == MinScore(b)
    ensures alpha <= NegInf && PosInf <= beta ==> v == MinScore(b)
  {
    if Terminal(b) {
      return Utility(b);
    }
    var r := Actions(b);
    v := MinValueLoop(b, r.value, alpha, beta);
  }

  /** The loop of `min_value`: the running minimum of the replies'
      `max_value`s, with `beta` lowered to it and the loop cut off once
      `beta` reaches `alpha`; fail-soft with respect to `MinOver`. */
  method MinValueLoop(b: Board, acts: seq<Action>, alpha: int, beta: int) returns (v: int)
    requires !Terminal(b) && acts == EmptyCells(b) && alpha < beta
    decreases Count(b, Empty), 1
    ensures -1 <= v <= 1
    ensures v <= alpha ==> MinOver(b, acts) <= v
    ensures beta <= v ==> v <= MinOver(b, acts)
    ensures alpha < v < beta ==> v == MinOver(b, acts)
  {
    OpenBoardHasMove(b);
    assert acts[..|acts|] == acts;
    v := PosInf;
    var beta' := beta;
    ghost var m := PosInf;
    var i := 0;
    while i < |acts|
      invariant 0 <= i <= |acts| && m == MinOver(b, acts[..i])
      invariant beta' == (if i == 0 then beta else Min(beta, v)) && alpha < beta'
      invariant i == 0 ==> v == PosInf
      invariant i > 0 ==> -1 <= v <= 1
      invariant beta <= v ==> m >= v
      invariant v < beta ==> m == v
    {
      var w := MaxValueOfMove(b, acts[i], alpha, beta');
      MinOverSnoc(b, acts, i);
      ghost var c := MaxScore(Successor(b, acts[i]));
      MinStep(alpha, beta, beta', i == 0, v, m, w, c);
      m := Min(m, c);
      v := Min(v, w);
      beta' := Min(beta', v);
      if beta' <= alpha {
        MinOverPrefix(b, acts, i + 1);
        break;
      }
      i := i + 1;
    }
  }

  /** The value `min_value` gives the board a legal move leads to (the
      expression `min_value(result(board, action), alpha, beta)` of
      `max_value`'s loop), fail-soft with respect to that board's exact
      value. */
  method MinValueOfMove(b: Board, a: Action, alpha: int, beta: int) returns (w: int)
    requires !Terminal(b) && InRange(a) && At(b, a) == Empty && alpha < beta
    decreases Count(b, Empty), 0
    ensures -1 <= w <= 1
    ensures w <= alpha ==> MinScore(Successor(b, a)) <= w
    ensures beta <= w ==> w <= MinScore(Successor(b, a))
    ensures alpha < w < beta ==> w == MinScore(Successor(b, a))
    ensures alpha <= NegInf && PosInf <= beta ==> w == MinScore(Successor(b, a))
  {
    var child := Result(b, a);
    SuccessorFewerEmpty(b, a);
    w := MinValue(child.value, alpha, beta);
  }

  /** The value `max_value` gives the board a legal move leads to, as used
      in `min_value`'s loop and in the minimiser's branch of `minimax`. */
  method MaxValueOfMove(b: Board, a: Action, alpha: int, beta: int) returns (w: int)
    requires !Terminal(b) && InRange(a) && At(b, a) == Empty && alpha < beta
    decreases Count(b, Empty), 0
    ensures -1 <= w <= 1
    ensures w <= alpha ==> MaxScore(Successor(b, a)) <= w
    ensures beta <= w ==> w <= MaxScore(Successor(b, a))
    ensures alpha < w < beta ==> w == MaxScore(Successor(b, a))
    ensures alpha <= NegInf && PosInf <= beta ==> w == MaxScore(Successor(b, a))
  {
    var child := Result(b, a);
    SuccessorFewerEmpty(b, a);
    w := MaxValue(child.value, alpha, beta);
  }

  /** The exact value, for the player to move on `b`, of marking cell `a`:
      the opponent then moves, so X's moves are valued by `MinScore` and O's
      by `MaxScore`. */
  function ActionValue(b: Board, a: Action): int
    requires InRange(a)
  {
    if Turn(b) == X then MinScore(Successor(b, a)) else MaxScore(Successor(b, a))
  }

  /** The exact value of `b` for the mark that is to move on it. */
  ghost function GameValue(b: Board): int {
    if Turn(b) == X then MaxScore(b) else MinScore(b)
  }

  /** In alternating play the search's roles match the marks: on a balanced
      board the value a move gets (the minimiser's value after X moves, the
      maximiser's after O moves) is the game value of the board it leads to,
      for the mark to move there. */
  lemma ActionValueIsGameValue(b: Board, a: Action)
    requires Balanced(b) && InRange(a) && At(b, a) == Empty
    ensures ActionValue(b, a) == GameValue(Successor(b, a))
  {
    Alternation(b, a);
  }

  /** The largest key of a non-empty dictionary (the source's
      `max(d.keys())`): `keys` is the dictionary's key view, its keys in
      insertion order, which `max` walks once. */
  method MaxKey(m: map<int, Action>, keys: seq<int>) returns (k: int)
    requires keys != [] && forall v :: v in m <==> v in keys
    ensures k in m && forall v :: v in m ==> v <= k
  {
    k := keys[0];
    for i := 1 to |keys|
      invariant k in keys && forall j :: 0 <= j < i ==> keys[j] <= k
    {
      if keys[i] > k {
        k := keys[i];
      }
    }
  }

  /** The smallest key of a non-empty dictionary (the source's
      `min(d.keys())`). */
  method MinKey(m: map<int, Action>, keys: seq<int>) returns (k: int)
    requires keys != [] && forall v :: v in m <==> v in keys
    ensures k in m && forall v :: v in m ==> k <= v
  {
    k := keys[0];
    for i := 1 to |keys|
      invariant k in keys && forall j :: 0 <= j < i ==> k <= keys[j]
    {
      if keys[i] < k {
        k := keys[i];
      }
    }
  }

  /** The table `values` that `minimax` fills while it walks the first `n`
      actions: `values[v]` is the last of those actions whose (exact) value
      `vals[k]` is `v`, `index[v]` is that action's position, and every value
      seen so far is a key. */
  ghost predicate Table(vals: seq<int>, acts: seq<Action>, n: int, values: map<int, Action>, index: map<int, int>) {
    0 <= n <= |vals| == |acts| && index.Keys == values.Keys &&
    (forall v :: v in index ==> 0 <= index[v] < n && acts[index[v]] == values[v] && vals[index[v]] == v) &&
    (forall v :: v in index ==> forall k :: index[v] < k < n ==> vals[k] != v) &&
    (forall k :: 0 <= k < n ==> vals[k] in values)
  }

  /** Recording the next action under its value, overwriting any earlier
      action with the same value, keeps the table. */
  lemma TableStep(vals: seq<int>, acts: seq<Action>, n: int, values: map<int, Action>, index: map<int, int>)
    requires Table(vals, acts, n, values, index) && n < |vals|
    ensures Table(vals, acts, n + 1, values[vals[n] := acts[n]], index[vals[n] := n])
  {
  }

  /** Looking up the largest key of a complete table gives the last action
      of maximal value. */
  lemma TableMax(vals: seq<int>, acts: seq<Action>, values: map<int, Action>, index: map<int, int>, m: int)
    requires Table(vals, acts, |vals|, values, index)
    requires m in values && forall v :: v in values ==> v <= m
    ensures 0 <= index[m] < |acts| && acts[index[m]] == values[m] && vals[index[m]] == m
    ensures forall k :: 0 <= k < |vals| ==> vals[k] <= m
    ensures forall k :: index[m] < k < |vals| ==> vals[k] != m
  {
  }

  /** Looking up the smallest key of a complete table gives the last action
      of minimal value. */
  lemma TableMin(vals: seq<int>, acts: seq<Action>, values: map<int, Action>, index: map<int, int>, m: int)
    requires Table(vals, acts, |vals|, values, index)
    requires m in values && forall v :: v in values ==> m <= v
    ensures 0 <= index[m] < |acts| && acts[index[m]] == values[m] && vals[index[m]] == m
    ensures forall k :: 0 <= k < |vals| ==> m <= vals[k]
    ensures forall k :: index[m] < k < |vals| ==> vals[k] != m
  {
  }

  /** From the position `k` a complete table yields (a value at least as
      good as every other for the player to move, and no later action with
      the same value) follow the properties of the move `minimax` returns. */
  lemma ChoiceIsOptimal(b: Board, vals: seq<int>, k: int)
    requires !Terminal(b)
    requires |vals| == |EmptyCells(b)|
    requires forall j :: 0 <= j < |vals| ==> vals[j] == ActionValue(b, EmptyCells(b)[j])
    requires 0 <= k < |vals|
    requires Turn(b) == X ==> forall j :: 0 <= j < |vals| ==> vals[j] <= vals[k]
    requires Turn(b) == O ==> forall j :: 0 <= j < |vals| ==> vals[k] <= vals[j]
    requires forall j :: k < j < |vals| ==> vals[j] != vals[k]
    ensures EmptyCells(b)[k] in EmptyCells(b)
    ensures Turn(b) == X ==> ActionValue(b, EmptyCells(b)[k]) == MaxScore(b)
    ensures Turn(b) == O ==> ActionValue(b, EmptyCells(b)[k]) == MinScore(b)
    ensures forall a :: a in EmptyCells(b) && Turn(b) == X ==> ActionValue(b, a) <= ActionValue(b, EmptyCells(b)[k])
    ensures forall a :: a in EmptyCells(b) && Turn(b) == O ==> ActionValue(b, EmptyCells(b)[k]) <= ActionValue(b, a)
    ensures forall k' :: k < k' < |EmptyCells(b)| ==> ActionValue(b, EmptyCells(b)[k']) != ActionValue(b, EmptyCells(b)[k])
  {
    var acts := EmptyCells(b);
    forall a | a in acts
      ensures Turn(b) == X ==> ActionValue(b, a) <= vals[k]
      ensures Turn(b) == O ==> vals[k] <= ActionValue(b, a)
    {
      var j :| 0 <= j < |acts| && acts[j] == a;
      assert vals[j] == ActionValue(b, a);
    }
    if Turn(b) == X {
      MaxOverBounds(b, acts);
      MaxOverAttained(b, acts);
      var j :| 0 <= j < |acts| && MinScore(Successor(b, acts[j])) == MaxOver(b, acts);
      assert vals[j] == MaxOver(b, acts);
    } else {
      MinOverBounds(b, acts);
      MinOverAttained(b, acts);
      var j :| 0 <= j < |acts| && MaxScore(Successor(b, acts[j])) == MinOver(b, acts);
      assert vals[j] == MinOver(b, acts);
    }
  }

  /** An optimal move for the player to move on a board that is not over:
      a legal move whose value is the best over all legal moves (the largest
      for X, the smallest for O) and equals the board's unpruned value; of
      the optimal moves it is the last one in row-major order, since a later
      move with the same value overwrites an earlier one in the table. */
  method Minimax(b: Board) returns (best: Action)
    requires !Terminal(b)
    ensures best in EmptyCells(b)
    ensures Turn(b) == X ==> ActionValue(b, best) == MaxScore(b)
    ensures Turn(b) == O ==> ActionValue(b, best) == MinScore(b)
    ensures forall a :: a in EmptyCells(b) && Turn(b) == X ==> ActionValue(b, a) <= ActionValue(b, best)
    ensures forall a :: a in EmptyCells(b) && Turn(b) == O ==> ActionValue(b, best) <= ActionValue(b, a)
    ensures exists k :: 0 <= k < |EmptyCells(b)| && EmptyCells(b)[k] == best &&
              forall k' :: k < k' < |EmptyCells(b)| ==> ActionValue(b, EmptyCells(b)[k']) != ActionValue(b, best)
  {
    var p := Player(b);
    if p == Ok(X) {
      best := MaximizingChoice(b);
    } else {
      best := MinimizingChoice(b);
    }
  }

  /** The values of the legal moves, in row-major order. */
  ghost function Values(b: Board): (vs: seq<int>)
    ensures |vs| == |EmptyCells(b)|
  {
    seq(|EmptyCells(b)|, j requires 0 <= j < |EmptyCells(b)| => ActionValue(b, EmptyCells(b)[j]))
  }

  /** A complete table of a board that is not over is not empty. */
  lemma TableNotEmpty(b: Board, values: map<int, Action>, index: map<int, int>)
    requires !Terminal(b)
    requires Table(Values(b), EmptyCells(b), |EmptyCells(b)|, values, index)
    ensures |Values(b)| > 0 && Values(b)[0] in values
  {
    OpenBoardHasMove(b);
  }

  /** The action under the largest key of X's complete table is an
      optimal move for X, the last one in row-major order. */
  lemma MaxTableChoice(b: Board, values: map<int, Action>, index: map<int, int>, m: int)
    requires !Terminal(b) && Turn(b) == X
    requires Table(Values(b), EmptyCells(b), |EmptyCells(b)|, values, index)
    requires m in values && forall v :: v in values ==> v <= m
    ensures values[m] in EmptyCells(b)
    ensures ActionValue(b, values[m]) == MaxScore(b)
    ensures forall a :: a in EmptyCells(b) ==> ActionValue(b, a) <= ActionValue(b, values[m])
    ensures exists k :: 0 <= k < |EmptyCells(b)| && EmptyCells(b)[k] == values[m] &&
              forall k' :: k < k' < |EmptyCells(b)| ==> ActionValue(b, EmptyCells(b)[k']) != ActionValue(b, values[m])
  {
    TableMax(Values(b), EmptyCells(b), values, index, m);
    ChoiceIsOptimal(b, Values(b), index[m]);
  }

  /** The action under the smallest key of O's complete table is an
      optimal move for O, the last one in row-major order. */
  lemma MinTableChoice(b: Board, values: map<int, Action>, index: map<int, int>, m: int)
    requires !Terminal(b) && Turn(b) == O
    requires Table(Values(b), EmptyCells(b), |EmptyCells(b)|, values, index)
    requires m in values && forall v :: v in values ==> m <= v
    ensures values[m] in EmptyCells(b)
    ensures ActionValue(b, values[m]) == MinScore(b)
    ensures forall a :: a in EmptyCells(b) ==> ActionValue(b, values[m]) <= ActionValue(b, a)
    ensures exists k :: 0 <= k < |EmptyCells(b)| && EmptyCells(b)[k] == values[m] &&
              forall k' :: k < k' < |EmptyCells(b)| ==> ActionValue(b, EmptyCells(b)[k']) != ActionValue(b, values[m])
  {
    TableMin(Values(b), EmptyCells(b), values, index, m);
    ChoiceIsOptimal(b, Values(b), index[m]);
  }

  /** The maximiser's branch of `minimax`: the table of move values is
      built, and the move under the largest value wins. */
  method MaximizingChoice(b: Board) returns (best: Action)
    requires !Terminal(b) && Turn(b) == X
    ensures best in EmptyCells(b)
    ensures ActionValue(b, best) == MaxScore(b)
    ensures forall a :: a in EmptyCells(b) ==> ActionValue(b, a) <= ActionValue(b, best)
    ensures exists k :: 0 <= k < |EmptyCells(b)| && EmptyCells(b)[k] == best &&
              forall k' :: k < k' < |EmptyCells(b)| ==> ActionValue(b, EmptyCells(b)[k']) != ActionValue(b, best)
  {
    var alpha := NegInf;
    var beta := PosInf;
    var r := Actions(b);
    var valuesActions, keys, index := TabulateMinValues(b, r.value, alpha, beta);
    TableNotEmpty(b, valuesActions, index);
    var maxV := MaxKey(valuesActions, keys);
    MaxTableChoice(b, valuesActions, index, maxV);
    best := valuesActions[maxV];
  }

  /** The minimiser's branch of `minimax`: the table of move values is
      built, and the move under the smallest value wins. */
  method MinimizingChoice(b: Board) returns (best: Action)
    requires !Terminal(b) && Turn(b) == O
    ensures best in EmptyCells(b)
    ensures ActionValue(b, best) == MinScore(b)
    ensures forall a :: a in EmptyCells(b) ==> ActionValue(b, best) <= ActionValue(b, a)
    ensures exists k :: 0 <= k < |EmptyCells(b)| && EmptyCells(b)[k] == best &&
              forall k' :: k < k' < |EmptyCells(b)| ==> ActionValue(b, EmptyCells(b)[k']) != ActionValue(b, best)
  {
    var alpha := NegInf;
    var beta := PosInf;
    var r := Actions(b);
    var valuesActions, keys, index := TabulateMaxValues(b, r.value, alpha, beta);
    TableNotEmpty(b, valuesActions, index);
    var minV := MinKey(valuesActions, keys);
    MinTableChoice(b, valuesActions, index, minV);
    best := valuesActions[minV];
  }

  /** The loop of the maximiser's branch: each move is valued by
      `min_value` on the board it leads to, and recorded under that value,
      a later move overwriting an earlier one of equal value. With the full
      window every recorded value is exact. */
  method TabulateMinValues(b: Board, acts: seq<Action>, alpha: int, beta: int)
      returns (valuesActions: map<int, Action>, keys: seq<int>, ghost index: map<int, int>)
    requires !Terminal(b) && Turn(b) == X && acts == EmptyCells(b)
    requires alpha <= NegInf && PosInf <= beta
    ensures Table(Values(b), acts, |acts|, valuesActions, index)
    ensures Distinct(keys) && forall v :: v in valuesActions <==> v in keys
  {
    valuesActions := map[];
    keys := [];
    index := map[];
    for i := 0 to |acts|
      invariant Table(Values(b), acts, i, valuesActions, index)
      invariant Distinct(keys) && forall v :: v in valuesActions <==> v in keys
    {
      var v := MinValueOfMove(b, acts[i], alpha, beta);
      TableStep(Values(b), acts, i, valuesActions, index);
      if v !in valuesActions {
        keys := keys + [v];
      }
      valuesActions := valuesActions[v := acts[i]];
      index := index[v := i];
    }
  }

  /** The loop of the minimiser's branch, valuing each move by `max_value`. */
  method TabulateMaxValues(b: Board, acts: seq<Action>, alpha: int, beta: int)
      returns (valuesActions: map<int, Action>, keys: seq<int>, ghost index: map<int, int>)
    requires !Terminal(b) && Turn(b) == O && acts == EmptyCells(b)
    requires alpha <= NegInf && PosInf <= beta
    ensures Table(Values(b), acts, |acts|, valuesActions, index)
    ensures Distinct(keys) && forall v :: v in valuesActions <==> v in keys
  {
    valuesActions := map[];
    keys := [];
    index := map[];
    for i := 0 to |acts|
      invariant Table(Values(b), acts, i, valuesActions, index)
      invariant Distinct(keys) && forall v :: v in valuesActions <==> v in keys
    {
      var v := MaxValueOfMove(b, acts[i], alpha, beta);
      TableStep(Values(b), acts, i, valuesActions, index);
      if v !in valuesActions {
        keys := keys + [v];
      }
      valuesActions := valuesActions[v := acts[i]];
      index := index[v := i];
    }
  }

  // ---------------------------------------------------------------------
  // A forced win

  /** No line of `b` is made of `m` alone: each of the eight lines has a
      cell that holds something else. */
  lemma NoLine(b: Board, m: Cell)
    requires b[0][0] != m || b[0][1] != m || b[0][2] != m
    requires b[1][0] != m || b[1][1] != m || b[1][2] != m
    requires b[2][0] != m || b[2][1] != m || b[2][2] != m
    requires b[0][0] != m || b[1][0] != m || b[2][0] != m
    requires b[0][1] != m || b[1][1] != m || b[2][1] != m
    requires b[0][2] != m || b[1][2] != m || b[2][2] != m
    requires b[0][0] != m || b[1][1] != m || b[2][2] != m
    requires b[2][0] != m || b[1][1] != m || b[0][2] != m
    ensures !HasLine(b, m)
  {
  }

  /** Two boards that agree cell by cell are equal. */
  lemma SameBoard(b: Board, c: Board)
    requires forall i, j :: 0 <= i < 3 && 0 <= j < 3 ==> b[i][j] == c[i][j]
    ensures b == c
  {
    assert b[0] == c[0] && b[1] == c[1] && b[2] == c[2];
  }

  /** A board where O has a line and X has none is lost for X, whoever is
      to move. */
  lemma OWins(b: Board)
    requires HasLine(b, O) && !HasLine(b, X)
    ensures MaxScore(b) == -1 && MinScore(b) == -1
  {
  }

  /** The minimiser's value is at most what any one legal reply gives. */
  lemma MinAtMost(b: Board, a: Action)
    requires !Terminal(b) && InRange(a) && At(b, a) == Empty
    ensures MinScore(b) <= MaxScore(Successor(b, a))
  {
    var acts := EmptyCells(b);
    assert a in acts;
    MinOverBounds(b, acts);
  }

  /** The maximiser's value is what some legal move gives. */
  lemma MaxAttainedBy(b: Board)
    requires !Terminal(b)
    ensures exists a :: InRange(a) && At(b, a) == Empty && MaxScore(b) == MinScore(Successor(b, a))
  {
    var acts := EmptyCells(b);
    OpenBoardHasMove(b);
    MaxOverAttained(b, acts);
    var k :| 0 <= k < |acts| && MinScore(Successor(b, acts[k])) == MaxOver(b, acts);
    assert acts[k] in acts;
  }

  /** X holds (0, 0) and (0, 1), O holds (1, 0) and (1, 1), X to move. */
  function ForcedWinBoard(): Board {
    [[X, X, Empty], [O, O, Empty], [Empty, Empty, Empty]]
  }

  /** Two marks each, and the bottom row is still empty. */
  lemma ForcedWinCounts()
    ensures Count(ForcedWinBoard(), X) == 2 && Count(ForcedWinBoard(), O) == 2
  {
    var b := ForcedWinBoard();
    CountByRows(b, X);
    CountByRows(b, O);
    assert b[0][..2] == [X, X] && b[0][..2][..1] == [X] && [X][..0] == [];
    assert b[1][..2] == [O, O] && b[1][..2][..1] == [O] && [O][..0] == [];
    assert CountRow(b[0], X) == 2 && CountRow(b[0], O) == 0;
    assert CountRow(b[1], X) == 0 && CountRow(b[1], O) == 2;
    CountRowUniform(b[2], Empty);
  }

  /** X's move at (0, 2) ends the game with X's top row. */
  lemma ForcedWinMove()
    ensures Turn(ForcedWinBoard()) == X
    ensures Utility(Successor(ForcedWinBoard(), (0, 2))) == 1
    ensures ActionValue(ForcedWinBoard(), (0, 2)) == 1
  {
    var b := ForcedWinBoard();
    ForcedWinCounts();
    var c := Successor(b, (0, 2));
    assert c[0] == [X, X, X];
    assert HasRow(c, X);
  }

  /** On that board X completes the top row by playing (0, 2), so the
      board's value is a win for X. */
  lemma ForcedWin()
    ensures !Terminal(ForcedWinBoard()) && Turn(ForcedWinBoard()) == X
    ensures ActionValue(ForcedWinBoard(), (0, 2)) == 1
    ensures MaxScore(ForcedWinBoard()) == 1
  {
    var b := ForcedWinBoard();
    ForcedWinMove();
    NoLine(b, X);
    NoLine(b, O);
    assert Empty in b[2];
    assert (0, 2) in EmptyCells(b);
    MaxOverBounds(b, EmptyCells(b));
  }

  /** X's move on the bottom row leaves O to complete the middle row. */
  lemma BottomRowLoses(j: int)
    requires 0 <= j < 3
    ensures ActionValue(ForcedWinBoard(), (2, j)) == -1
  {
    var b := ForcedWinBoard();
    ForcedWinMove();
    ForcedWinCounts();
    var s := Successor(b, (2, j));
    Alternation(b, (2, j));
    NoLine(s, X);
    NoLine(s, O);
    assert Empty in s[1];
    MinAtMost(s, (1, 2));
    var u := Successor(s, (1, 2));
    assert u[1][0] == O && u[1][1] == O && u[1][2] == O;
    assert HasRow(u, O);
    NoLine(u, X);
    OWins(u);
  }

  /** X blocks the middle row at (1, 2). */
  function Blocking(): Board {
    Successor(ForcedWinBoard(), (1, 2))
  }

  /** O answers by blocking the top row at (0, 2). */
  function Blocked(): Board {
    Successor(Blocking(), (0, 2))
  }

  lemma BlockingIs()
    ensures Blocking() == [[X, X, Empty], [O, O, X], [Empty, Empty, Empty]]
    ensures Balanced(Blocking()) && Turn(Blocking()) == O
  {
    ForcedWinMove();
    ForcedWinCounts();
    Alternation(ForcedWinBoard(), (1, 2));
    SameBoard(Blocking(), [[X, X, Empty], [O, O, X], [Empty, Empty, Empty]]);
  }

  lemma BlockedIs()
    ensures Blocked() == [[X, X, O], [O, O, X], [Empty, Empty, Empty]]
    ensures Balanced(Blocked()) && Turn(Blocked()) == X
  {
    BlockingIs();
    Alternation(Blocking(), (0, 2));
    SameBoard(Blocked(), [[X, X, O], [O, O, X], [Empty, Empty, Empty]]);
  }

  /** Only the bottom row of that board is open, and nobody has a line. */
  lemma BlockedOpen(a: Action)
    requires InRange(a) && At(Blocked(), a) == Empty
    ensures a.0 == 2 && !Terminal(Blocked())
  {
    BlockedIs();
    var t := Blocked();
    NoLine(t, X);
    NoLine(t, O);
    assert Empty in t[2];
  }

  /** After O's block, X marking (2, 1) or (2, 2) leaves O to complete the
      diagonal through (2, 0). */
  lemma BlockedEdgeLoses(j: int)
    requires j == 1 || j == 2
    ensures MinScore(Successor(Blocked(), (2, j))) == -1
  {
    BlockedIs();
    var t := Blocked();
    var u := Successor(t, (2, j));
    Alternation(t, (2, j));
    NoLine(u, X);
    NoLine(u, O);
    assert Empty in u[2];
    MinAtMost(u, (2, 0));
    var w := Successor(u, (2, 0));
    assert w[2][0] == O && w[1][1] == O && w[0][2] == O;
    NoLine(w, X);
    OWins(w);
  }

  /** X marks (2, 0), blocking that diagonal. */
  function CornerTaken(): Board {
    Successor(Blocked(), (2, 0))
  }

  /** O answers at (2, 1), leaving (2, 2) as the last cell. */
  function LastCellLeft(): Board {
    Successor(CornerTaken(), (2, 1))
  }

  lemma CornerTakenIs()
    ensures CornerTaken() == [[X, X, O], [O, O, X], [X, Empty, Empty]]
    ensures Balanced(CornerTaken()) && Turn(CornerTaken()) == O
  {
    BlockedIs();
    Alternation(Blocked(), (2, 0));
    SameBoard(CornerTaken(), [[X, X, O], [O, O, X], [X, Empty, Empty]]);
  }

  lemma LastCellLeftIs()
    ensures LastCellLeft() == [[X, X, O], [O, O, X], [X, O, Empty]]
    ensures Balanced(LastCellLeft()) && Turn(LastCellLeft()) == X
  {
    CornerTakenIs();
    Alternation(CornerTaken(), (2, 1));
    SameBoard(LastCellLeft(), [[X, X, O], [O, O, X], [X, O, Empty]]);
  }

  /** Only (2, 2) is open on that board, and nobody has a line. */
  lemma LastCellOpen(a: Action)
    requires InRange(a) && At(LastCellLeft(), a) == Empty
    ensures a == (2, 2) && !Terminal(LastCellLeft())
  {
    LastCellLeftIs();
    var w := LastCellLeft();
    NoLine(w, X);
    NoLine(w, O);
    assert Empty in w[2];
  }

  /** Filling (2, 2) fills the board without a line. */
  lemma LastCellFilled()
    ensures MinScore(Successor(LastCellLeft(), (2, 2))) == 0
  {
    LastCellLeftIs();
    var z := Successor(LastCellLeft(), (2, 2));
    SameBoard(z, [[X, X, O], [O, O, X], [X, O, X]]);
    NoLine(z, X);
    NoLine(z, O);
  }

  /** X's last move at (2, 2) fills the board without a line: a draw. */
  lemma LastCellDraws()
    ensures MaxScore(LastCellLeft()) == 0
  {
    LastCellLeftIs();
    var w := LastCellLeft();
    LastCellOpen((2, 2));
    MaxAttainedBy(w);
    var a :| InRange(a) && At(w, a) == Empty && MaxScore(w) == MinScore(Successor(w, a));
    LastCellOpen(a);
    LastCellFilled();
  }

  /** After O's block, X's move at (2, 0) is answered at (2, 1), and the
      game is drawn. */
  lemma BlockedCornerDraws()
    ensures MinScore(CornerTaken()) <= 0
  {
    CornerTakenIs();
    var u := CornerTaken();
    NoLine(u, X);
    NoLine(u, O);
    assert Empty in u[2];
    MinAtMost(u, (2, 1));
    LastCellDraws();
  }

  /** After X's block at (1, 2) and O's at (0, 2), X can at best draw. */
  lemma BlockedDraws()
    ensures MaxScore(Blocked()) <= 0
  {
    BlockedIs();
    var t := Blocked();
    BlockedOpen((2, 0));
    MaxAttainedBy(t);
    var a :| InRange(a) && At(t, a) == Empty && MaxScore(t) == MinScore(Successor(t, a));
    BlockedOpen(a);
    if a == (2, 0) {
      BlockedCornerDraws();
    } else {
      BlockedEdgeLoses(a.1);
    }
  }

  /** X's move at (1, 2) blocks O, but O then blocks at (0, 2) and X can
      do no better than a draw. */
  lemma MiddleRightDraws()
    ensures ActionValue(ForcedWinBoard(), (1, 2)) <= 0
  {
    BlockingIs();
    ForcedWinMove();
    var s := Blocking();
    NoLine(s, X);
    NoLine(s, O);
    assert Empty in s[2];
    MinAtMost(s, (0, 2));
    BlockedDraws();
  }

  /** Every legal move on the example board other than (0, 2) fails to win. */
  lemma OnlyWinningMove()
    ensures forall a :: a in EmptyCells(ForcedWinBoard()) && a != (0, 2) ==> ActionValue(ForcedWinBoard(), a) < 1
  {
    forall a | a in EmptyCells(ForcedWinBoard()) && a != (0, 2)
      ensures ActionValue(ForcedWinBoard(), a) < 1
    {
      if a == (1, 2) {
        MiddleRightDraws();
      } else {
        BottomRowLoses(a.1);
      }
    }
  }

  /** Any move meeting `Minimax`'s promise on the example board (a legal
      move of the board's value, X being to move) is (0, 2). */
  lemma ForcedWinChoice(best: Action)
    requires best in EmptyCells(ForcedWinBoard())
    requires ActionValue(ForcedWinBoard(), best) == MaxScore(ForcedWinBoard())
    ensures best == (0, 2)
  {
    ForcedWin();
    OnlyWinningMove();
  }

  /** `minimax` on the example board returns the winning move (0, 2),
      whatever order the legal moves are listed in. */
  method ForcedWinMinimax() returns (best: Action)
    ensures best == (0, 2)
  {
    ForcedWin();
    best := Minimax(ForcedWinBoard());
    ForcedWinChoice(best);
  }
}
