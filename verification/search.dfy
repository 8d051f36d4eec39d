/** The exhaustive game-tree search of connect4.py: `min_value`, `max_value` and
    `minimax`. R maximises the utility, Y minimises it. The source iterates over the
    action set in an unspecified order; here the actions are visited in column order,
    and the lemmas below show that the values are the minimum and maximum over the
    whole set, so no order could give other values. */
module Search {
  import opened Wrappers
  import opened Connect4

  /** The source's `1e10`, a value outside {-1, 0, 1} that any real value beats. */
  const Inf: int := 10000000000

  function Min(x: int, y: int): int { if x <= y then x else y }
  function Max(x: int, y: int): int { if x >= y then x else y }

  /** `min_value`: the utility of a finished game, otherwise the least `max_value` of the
      boards the mover can reach. */
  function MinValue(b: Board): Result<int>
    requires WellFormed(b)
    decreases Empties(b), 2, 0
  {
    if Terminal(b) then Ok(Utility(b))
    else
      ActionSeqMembers(b);
      MinOver(b, ActionSeq(b), Inf)
  }

  /** `max_value`: the utility of a finished game, otherwise the greatest `min_value` of
      the boards the mover can reach. */
  function MaxValue(b: Board): Result<int>
    requires WellFormed(b)
    decreases Empties(b), 2, 0
  {
    if Terminal(b) then Ok(Utility(b))
    else
      ActionSeqMembers(b);
      MaxOver(b, ActionSeq(b), -Inf)
  }

  /** `min_value(result(board, action))`, raising what either call raises. */
  function MinScore(b: Board, a: Action): Result<int>
    requires WellFormed(b) && IsAction(b, a)
    decreases Empties(b), 0, 0
  {
    match ResultOf(b, a)
    case Error(e) => Error(e)
    case Ok(next) => MinValue(next)
  }

  /** `max_value(result(board, action))`, raising what either call raises. */
  function MaxScore(b: Board, a: Action): Result<int>
    requires WellFormed(b) && IsAction(b, a)
    decreases Empties(b), 0, 0
  {
    match ResultOf(b, a)
    case Error(e) => Error(e)
    case Ok(next) => MaxValue(next)
  }

  /** The loop of `min_value`: `v = min(max_value(result(board, action)), v)`. */
  function MinOver(b: Board, acts: seq<Action>, v: int): Result<int>
    requires WellFormed(b)
    requires forall a :: a in acts ==> IsAction(b, a)
    decreases Empties(b), 1, |acts|
  {
    if |acts| == 0 then Ok(v)
    else
      assert acts[0] in acts;
      match MaxScore(b, acts[0])
      case Error(e) => Error(e)
      case Ok(x) => MinOver(b, acts[1..], Min(x, v))
  }

  /** The loop of `max_value`: `v = max(min_value(result(board, action)), v)`. */
  function MaxOver(b: Board, acts: seq<Action>, v: int): Result<int>
    requires WellFormed(b)
    requires forall a :: a in acts ==> IsAction(b, a)
    decreases Empties(b), 1, |acts|
  {
    if |acts| == 0 then Ok(v)
    else
      assert acts[0] in acts;
      match MinScore(b, acts[0])
      case Error(e) => Error(e)
      case Ok(x) => MaxOver(b, acts[1..], Max(x, v))
  }

  // ---------------------------------------------------------------------------
  // Values are game results

  predicate IsValue(v: int) { v == -1 || v == 0 || v == 1 }

  /** Whatever the board, a value the search returns is a utility: -1, 0 or 1. */
  lemma {:induction false} MinValueIsUtility(b: Board)
    requires WellFormed(b) && MinValue(b).Ok?
    ensures IsValue(MinValue(b).value)
    decreases Empties(b), 2, 0
  {
    if !Terminal(b) {
      NotTerminalHasAction(b);
      ActionSeqMembers(b);
      MinOverIsUtility(b, ActionSeq(b), Inf);
    }
  }

  lemma {:induction false} MaxValueIsUtility(b: Board)
    requires WellFormed(b) && MaxValue(b).Ok?
    ensures IsValue(MaxValue(b).value)
    decreases Empties(b), 2, 0
  {
    if !Terminal(b) {
      NotTerminalHasAction(b);
      ActionSeqMembers(b);
      MaxOverIsUtility(b, ActionSeq(b), -Inf);
    }
  }

  lemma {:induction false} MinOverIsUtility(b: Board, acts: seq<Action>, v: int)
    requires WellFormed(b) && forall a :: a in acts ==> IsAction(b, a)
    requires IsValue(v) || (v == Inf && |acts| > 0)
    requires MinOver(b, acts, v).Ok?
    ensures IsValue(MinOver(b, acts, v).value)
    decreases Empties(b), 1, |acts|
  {
    if |acts| > 0 {
      var a := acts[0];
      assert a in acts;
      var next := ResultOf(b, a).value;
      MaxValueIsUtility(next);
      MinOverIsUtility(b, acts[1..], Min(MaxScore(b, a).value, v));
    }
  }

  lemma {:induction false} MaxOverIsUtility(b: Board, acts: seq<Action>, v: int)
    requires WellFormed(b) && forall a :: a in acts ==> IsAction(b, a)
    requires IsValue(v) || (v == -Inf && |acts| > 0)
    requires MaxOver(b, acts, v).Ok?
    ensures IsValue(MaxOver(b, acts, v).value)
    decreases Empties(b), 1, |acts|
  {
    if |acts| > 0 {
      var a := acts[0];
      assert a in acts;
      var next := ResultOf(b, a).value;
      MinValueIsUtility(next);
      MaxOverIsUtility(b, acts[1..], Max(MinScore(b, a).value, v));
    }
  }

  /** On a board whose columns are filled without gaps the search never raises: every
      offered drop lands on an EMPTY cell, and the boards it reaches keep that shape. */
  lemma {:induction false} MinValueTotal(b: Board)
    requires WellFormed(b) && Gravity(b)
    ensures MinValue(b).Ok?
    decreases Empties(b), 2, 0
  {
    if !Terminal(b) {
      ActionSeqMembers(b);
      MinOverTotal(b, ActionSeq(b), Inf);
    }
  }

  lemma {:induction false} MaxValueTotal(b: Board)
    requires WellFormed(b) && Gravity(b)
    ensures MaxValue(b).Ok?
    decreases Empties(b), 2, 0
  {
    if !Terminal(b) {
      ActionSeqMembers(b);
      MaxOverTotal(b, ActionSeq(b), -Inf);
    }
  }

  lemma {:induction false} MinOverTotal(b: Board, acts: seq<Action>, v: int)
    requires WellFormed(b) && Gravity(b) && forall a :: a in acts ==> IsAction(b, a)
    ensures MinOver(b, acts, v).Ok?
    decreases Empties(b), 1, |acts|
  {
    if |acts| > 0 {
      var a := acts[0];
      assert a in acts;
      ResultOfAction(b, a);
      MaxValueTotal(ResultOf(b, a).value);
      MinOverTotal(b, acts[1..], Min(MaxScore(b, a).value, v));
    }
  }

  lemma {:induction false} MaxOverTotal(b: Board, acts: seq<Action>, v: int)
    requires WellFormed(b) && Gravity(b) && forall a :: a in acts ==> IsAction(b, a)
    ensures MaxOver(b, acts, v).Ok?
    decreases Empties(b), 1, |acts|
  {
    if |acts| > 0 {
      var a := acts[0];
      assert a in acts;
      ResultOfAction(b, a);
      MinValueTotal(ResultOf(b, a).value);
      MaxOverTotal(b, acts[1..], Max(MinScore(b, a).value, v));
    }
  }

  // ---------------------------------------------------------------------------
  // The loops compute the minimum and maximum over the action set

  /** The loop of `min_value` ends with the least of its start value and the scores of
      the actions it visits. */
  lemma {:induction false} MinOverIsLeast(b: Board, acts: seq<Action>, v: int)
    requires WellFormed(b) && forall a :: a in acts ==> IsAction(b, a)
    requires MinOver(b, acts, v).Ok?
    ensures forall a :: a in acts ==> MaxScore(b, a).Ok?
    ensures MinOver(b, acts, v).value <= v
    ensures forall a :: a in acts ==> MinOver(b, acts, v).value <= MaxScore(b, a).value
    ensures MinOver(b, acts, v).value == v ||
            exists a :: a in acts && MinOver(b, acts, v).value == MaxScore(b, a).value
    decreases |acts|
  {
    if |acts| > 0 {
      assert acts[0] in acts;
      MinOverIsLeast(b, acts[1..], Min(MaxScore(b, acts[0]).value, v));
    }
  }

  /** The loop of `max_value` ends with the greatest of its start value and the scores of
      the actions it visits. */
  lemma {:induction false} MaxOverIsGreatest(b: Board, acts: seq<Action>, v: int)
    requires WellFormed(b) && forall a :: a in acts ==> IsAction(b, a)
    requires MaxOver(b, acts, v).Ok?
    ensures forall a :: a in acts ==> MinScore(b, a).Ok?
    ensures MaxOver(b, acts, v).value >= v
    ensures forall a :: a in acts ==> MaxOver(b, acts, v).value >= MinScore(b, a).value
    ensures MaxOver(b, acts, v).value == v ||
            exists a :: a in acts && MaxOver(b, acts, v).value == MinScore(b, a).value
    decreases |acts|
  {
    if |acts| > 0 {
      assert acts[0] in acts;
      MaxOverIsGreatest(b, acts[1..], Max(MinScore(b, acts[0]).value, v));
    }
  }

  /** The loop of `min_value` raises only when some visited score raises. */
  lemma {:induction false} MinOverRaises(b: Board, acts: seq<Action>, v: int)
    requires WellFormed(b) && forall a :: a in acts ==> IsAction(b, a)
    requires MinOver(b, acts, v).Error?
    ensures exists a :: a in acts && MaxScore(b, a).Error?
    decreases |acts|
  {
    assert acts[0] in acts;
    if MaxScore(b, acts[0]).Ok? {
      MinOverRaises(b, acts[1..], Min(MaxScore(b, acts[0]).value, v));
      var a :| a in acts[1..] && MaxScore(b, a).Error?;
      assert a in acts;
    }
  }

  /** On an unfinished board `min_value` raises exactly when some action's
      `max_value(result(board, action))` raises; otherwise it is the minimum of those values
      over the whole set `actions(board)`, whatever order the set is visited in. */
  lemma MinValueIsMinimum(b: Board)
    requires WellFormed(b) && !Terminal(b)
    ensures MinValue(b).Ok? <==> forall a :: IsAction(b, a) ==> MaxScore(b, a).Ok?
    ensures MinValue(b).Ok? ==>
      forall a :: IsAction(b, a) ==> MinValue(b).value <= MaxScore(b, a).value
    ensures MinValue(b).Ok? ==> exists a :: IsAction(b, a) && MinValue(b).value == MaxScore(b, a).value
  {
    NotTerminalHasAction(b);
    ActionSeqMembers(b);
    if MinValue(b).Ok? {
      MinOverIsLeast(b, ActionSeq(b), Inf);
      MinValueIsUtility(b);
    } else {
      MinOverRaises(b, ActionSeq(b), Inf);
    }
  }

  /** The loop of `max_value` raises only when some visited score raises. */
  lemma {:induction false} MaxOverRaises(b: Board, acts: seq<Action>, v: int)
    requires WellFormed(b) && forall a :: a in acts ==> IsAction(b, a)
    requires MaxOver(b, acts, v).Error?
    ensures exists a :: a in acts && MinScore(b, a).Error?
    decreases |acts|
  {
    assert acts[0] in acts;
    if MinScore(b, acts[0]).Ok? {
      MaxOverRaises(b, acts[1..], Max(MinScore(b, acts[0]).value, v));
      var a :| a in acts[1..] && MinScore(b, a).Error?;
      assert a in acts;
    }
  }

  /** On an unfinished board `max_value` raises exactly when some action's
      `min_value(result(board, action))` raises; otherwise it is the maximum of those values
      over the whole set `actions(board)`, whatever order the set is visited in. */
  lemma MaxValueIsMaximum(b: Board)
    requires WellFormed(b) && !Terminal(b)
    ensures MaxValue(b).Ok? <==> forall a :: IsAction(b, a) ==> MinScore(b, a).Ok?
    ensures MaxValue(b).Ok? ==>
      forall a :: IsAction(b, a) ==> MaxValue(b).value >= MinScore(b, a).value
    ensures MaxValue(b).Ok? ==> exists a :: IsAction(b, a) && MaxValue(b).value == MinScore(b, a).value
  {
    NotTerminalHasAction(b);
    ActionSeqMembers(b);
    if MaxValue(b).Ok? {
      MaxOverIsGreatest(b, ActionSeq(b), -Inf);
      MaxValueIsUtility(b);
    } else {
      MaxOverRaises(b, ActionSeq(b), -Inf);
    }
  }

  /** On a finished board both searches return the utility without looking further. */
  lemma TerminalValue(b: Board)
    requires WellFormed(b) && Terminal(b)
    ensures MinValue(b) == Ok(Utility(b)) && MaxValue(b) == Ok(Utility(b))
  {
  }

  /** One step of `minimax` for R: `min_value(result(board, action))` of an offered action
      is a utility, and it is defined on a gravity board. */
  lemma MinScoreFacts(b: Board, a: Action)
    requires WellFormed(b) && IsAction(b, a)
    ensures Gravity(b) ==> MinScore(b, a).Ok?
    ensures MinScore(b, a).Ok? ==> IsValue(MinScore(b, a).value)
  {
    if Gravity(b) {
      ResultOfAction(b, a);
      MinValueTotal(ResultOf(b, a).value);
    }
    if ResultOf(b, a).Ok? && MinValue(ResultOf(b, a).value).Ok? {
      MinValueIsUtility(ResultOf(b, a).value);
    }
  }

  /** One step of `minimax` for Y: `max_value(result(board, action))` of an offered action
      is a utility, and it is defined on a gravity board. */
  lemma MaxScoreFacts(b: Board, a: Action)
    requires WellFormed(b) && IsAction(b, a)
    ensures Gravity(b) ==> MaxScore(b, a).Ok?
    ensures MaxScore(b, a).Ok? ==> IsValue(MaxScore(b, a).value)
  {
    if Gravity(b) {
      ResultOfAction(b, a);
      MaxValueTotal(ResultOf(b, a).value);
    }
    if ResultOf(b, a).Ok? && MaxValue(ResultOf(b, a).value).Ok? {
      MaxValueIsUtility(ResultOf(b, a).value);
    }
  }

  // ---------------------------------------------------------------------------
  // minimax

  /** The position of an action in the visiting order. */
  function IndexOf(acts: seq<Action>, a: Action): (k: int)
    requires a in acts
    ensures 0 <= k < |acts| && acts[k] == a
  {
    if acts[0] == a then 0 else 1 + IndexOf(acts[1..], a)
  }

  /** An action of greatest `min_value(result(board, action))` among all offered actions,
      strictly better than every offered action in an earlier column. */
  ghost predicate RedOptimal(b: Board, best: Action)
    requires WellFormed(b) && IsAction(b, best)
  {
    && MinScore(b, best).Ok?
    && (forall a :: IsAction(b, a) ==> MinScore(b, a).Ok? && MinScore(b, a).value <= MinScore(b, best).value)
    && (forall a :: IsAction(b, a) && a.col < best.col ==> MinScore(b, a).value < MinScore(b, best).value)
  }

  /** An action of least `max_value(result(board, action))` among all offered actions,
      strictly better than every offered action in an earlier column. */
  ghost predicate YellowOptimal(b: Board, best: Action)
    requires WellFormed(b) && IsAction(b, best)
  {
    && MaxScore(b, best).Ok?
    && (forall a :: IsAction(b, a) ==> MaxScore(b, a).Ok? && MaxScore(b, a).value >= MaxScore(b, best).value)
    && (forall a :: IsAction(b, a) && a.col < best.col ==> MaxScore(b, a).value > MaxScore(b, best).value)
  }

  /** What R's branch concludes from the loop: it raises only off gap-free boards, keeps
      nothing exactly when no action is offered, and otherwise keeps an optimal action. */
  lemma RedOutcome(b: Board, acts: seq<Action>, score: Action --> Result<int>, r: Result<Option<Action>>)
    requires WellFormed(b)
    requires forall a :: a in acts <==> IsAction(b, a)
    requires forall i, j :: 0 <= i < j < |acts| ==> acts[i].col < acts[j].col
    requires forall a :: a in acts ==> score.requires(a) && score(a) == MinScore(b, a)
    requires r.Ok? <==> forall a :: a in acts ==> score(a).Ok?
    requires r.Ok? ==> (r.value.None? <==> |acts| == 0)
    requires r.Ok? && r.value.Some? ==>
      exists k :: 0 <= k < |acts| && acts[k] == r.value.value && FirstBest(acts, score, true, k)
    ensures Gravity(b) ==> r.Ok?
    ensures r.Ok? <==> forall a :: IsAction(b, a) ==> MinScore(b, a).Ok?
    ensures r.Ok? ==> (r.value.None? <==> forall a :: !IsAction(b, a))
    ensures r.Ok? && r.value.Some? ==> IsAction(b, r.value.value) && RedOptimal(b, r.value.value)
  {
    if Gravity(b) {
      forall a | a in acts
        ensures score(a).Ok?
      {
        MinScoreFacts(b, a);
      }
    }
    if r.Ok? && r.value.None? {
      assert forall a :: !IsAction(b, a);
    }
    if r.Ok? && r.value.Some? {
      assert acts[0] in acts;
      ghost var k :| 0 <= k < |acts| && acts[k] == r.value.value && FirstBest(acts, score, true, k);
      RedChoice(b, acts, score, k);
    }
  }

  /** The first best score in column order belongs to an optimal action for R. */
  lemma RedChoice(b: Board, acts: seq<Action>, score: Action --> Result<int>, k: int)
    requires WellFormed(b) && 0 <= k < |acts|
    requires forall a :: a in acts <==> IsAction(b, a)
    requires forall i, j :: 0 <= i < j < |acts| ==> acts[i].col < acts[j].col
    requires forall a :: a in acts ==> score.requires(a) && score(a) == MinScore(b, a) && score(a).Ok?
    requires FirstBest(acts, score, true, k)
    ensures RedOptimal(b, acts[k])
  {
    forall a | IsAction(b, a)
      ensures MinScore(b, a).Ok? && MinScore(b, a).value <= MinScore(b, acts[k]).value
      ensures a.col < acts[k].col ==> MinScore(b, a).value < MinScore(b, acts[k]).value
    {
      var j := IndexOf(acts, a);
      assert acts[k] in acts;
      assert !Beats(true, score(acts[j]).value, score(acts[k]).value);
      if a.col < acts[k].col {
        assert j < k;
        assert Beats(true, score(acts[k]).value, score(acts[j]).value);
      }
    }
  }

  /** What Y's branch concludes from the loop: it raises only off gap-free boards, keeps
      nothing exactly when no action is offered, and otherwise keeps an optimal action. */
  lemma YellowOutcome(b: Board, acts: seq<Action>, score: Action --> Result<int>, r: Result<Option<Action>>)
    requires WellFormed(b)
    requires forall a :: a in acts <==> IsAction(b, a)
    requires forall i, j :: 0 <= i < j < |acts| ==> acts[i].col < acts[j].col
    requires forall a :: a in acts ==> score.requires(a) && score(a) == MaxScore(b, a)
    requires r.Ok? <==> forall a :: a in acts ==> score(a).Ok?
    requires r.Ok? ==> (r.value.None? <==> |acts| == 0)
    requires r.Ok? && r.value.Some? ==>
      exists k :: 0 <= k < |acts| && acts[k] == r.value.value && FirstBest(acts, score, false, k)
    ensures Gravity(b) ==> r.Ok?
    ensures r.Ok? <==> forall a :: IsAction(b, a) ==> MaxScore(b, a).Ok?
    ensures r.Ok? ==> (r.value.None? <==> forall a :: !IsAction(b, a))
    ensures r.Ok? && r.value.Some? ==> IsAction(b, r.value.value) && YellowOptimal(b, r.value.value)
  {
    if Gravity(b) {
      forall a | a in acts
        ensures score(a).Ok?
      {
        MaxScoreFacts(b, a);
      }
    }
    if r.Ok? && r.value.None? {
      assert forall a :: !IsAction(b, a);
    }
    if r.Ok? && r.value.Some? {
      assert acts[0] in acts;
      ghost var k :| 0 <= k < |acts| && acts[k] == r.value.value && FirstBest(acts, score, false, k);
      YellowChoice(b, acts, score, k);
    }
  }

  /** The first best score in column order belongs to an optimal action for Y. */
  lemma YellowChoice(b: Board, acts: seq<Action>, score: Action --> Result<int>, k: int)
    requires WellFormed(b) && 0 <= k < |acts|
    requires forall a :: a in acts <==> IsAction(b, a)
    requires forall i, j :: 0 <= i < j < |acts| ==> acts[i].col < acts[j].col
    requires forall a :: a in acts ==> score.requires(a) && score(a) == MaxScore(b, a) && score(a).Ok?
    requires FirstBest(acts, score, false, k)
    ensures YellowOptimal(b, acts[k])
  {
    forall a | IsAction(b, a)
      ensures MaxScore(b, a).Ok? && MaxScore(b, a).value >= MaxScore(b, acts[k]).value
      ensures a.col < acts[k].col ==> MaxScore(b, a).value > MaxScore(b, acts[k]).value
    {
      var j := IndexOf(acts, a);
      assert acts[k] in acts;
      assert !Beats(false, score(acts[j]).value, score(acts[k]).value);
      if a.col < acts[k].col {
        assert j < k;
        assert Beats(false, score(acts[k]).value, score(acts[j]).value);
      }
    }
  }

  /** `val > best_val` in R's branch, `val < best_val` in Y's. */
  predicate Beats(maximize: bool, x: int, y: int)
  {
    if maximize then x > y else x < y
  }

  /** acts[k] has a score no other action beats and strictly beats every earlier one. */
  ghost predicate FirstBest(acts: seq<Action>, score: Action --> Result<int>, maximize: bool, k: int)
    requires 0 <= k < |acts|
    requires forall a :: a in acts ==> score.requires(a) && score(a).Ok?
  {
    && (forall j :: 0 <= j < |acts| ==> !Beats(maximize, score(acts[j]).value, score(acts[k]).value))
    && (forall j :: 0 <= j < k ==> Beats(maximize, score(acts[k]).value, score(acts[j]).value))
  }

  /** The loop shared by both branches of `minimax`: visit `acts` in order, starting
      from the sentinel `-1e10` (maximising) or `1e10` (minimising), and keep an action
      whose score strictly beats the kept one. A score that raises ends the loop with
      that exception. */
  method KeepBest(acts: seq<Action>, score: Action --> Result<int>, maximize: bool)
    returns (r: Result<Option<Action>>)
    requires forall a :: a in acts ==> score.requires(a)
    requires forall a :: a in acts && score(a).Ok? ==> IsValue(score(a).value)
    ensures r.Ok? <==> forall a :: a in acts ==> score(a).Ok?
    ensures r.Ok? ==> (r.value.None? <==> |acts| == 0)
    ensures r.Ok? && r.value.Some? ==>
      exists k :: 0 <= k < |acts| && acts[k] == r.value.value && FirstBest(acts, score, maximize, k)
  {
    var best: Option<Action> := None;
    var bestVal := if maximize then -Inf else Inf;
    ghost var k := 0;
    for i := 0 to |acts|
      invariant forall j :: 0 <= j < i ==> score(acts[j]).Ok?
      invariant best.None? <==> i == 0
      invariant best.None? ==> bestVal == if maximize then -Inf else Inf
      invariant best.Some? ==> 0 <= k < i && acts[k] == best.value && score(acts[k]) == Ok(bestVal)
      invariant best.Some? ==> forall j :: 0 <= j < i ==> !Beats(maximize, score(acts[j]).value, bestVal)
      invariant best.Some? ==> forall j :: 0 <= j < k ==> Beats(maximize, bestVal, score(acts[j]).value)
    {
      var a := acts[i];
      assert a in acts;
      var val := score(a);
      if val.Error? {
        return Error(val.message);
      }
      if Beats(maximize, val.value, bestVal) {
        bestVal := val.value;
        best := Some(a);
        k := i;
      }
    }
    r := Ok(best);
  }

  /** R's branch of `minimax`: an action of greatest `min_value(result(board, action))`. */
  method BestForRed(b: Board) returns (r: Result<Option<Action>>)
    requires WellFormed(b)
    ensures Gravity(b) ==> r.Ok?
    ensures r.Ok? <==> forall a :: IsAction(b, a) ==> MinScore(b, a).Ok?
    ensures r.Ok? ==> (r.value.None? <==> forall a :: !IsAction(b, a))
    ensures r.Ok? && r.value.Some? ==> IsAction(b, r.value.value) && RedOptimal(b, r.value.value)
  {
    var acts := ActionSeq(b);
    ActionSeqMembers(b);
    var score := a requires WellFormed(b) && IsAction(b, a) => MinScore(b, a);
    forall a | a in acts
      ensures score(a).Ok? ==> IsValue(score(a).value)
    {
      MinScoreFacts(b, a);
    }
    r := KeepBest(acts, score, true);
    RedOutcome(b, acts, score, r);
  }

  /** Y's branch of `minimax`: an action of least `max_value(result(board, action))`. */
  method BestForYellow(b: Board) returns (r: Result<Option<Action>>)
    requires WellFormed(b)
    ensures Gravity(b) ==> r.Ok?
    ensures r.Ok? <==> forall a :: IsAction(b, a) ==> MaxScore(b, a).Ok?
    ensures r.Ok? ==> (r.value.None? <==> forall a :: !IsAction(b, a))
    ensures r.Ok? && r.value.Some? ==> IsAction(b, r.value.value) && YellowOptimal(b, r.value.value)
  {
    var acts := ActionSeq(b);
    ActionSeqMembers(b);
    var score := a requires WellFormed(b) && IsAction(b, a) => MaxScore(b, a);
    forall a | a in acts
      ensures score(a).Ok? ==> IsValue(score(a).value)
    {
      MaxScoreFacts(b, a);
    }
    r := KeepBest(acts, score, false);
    YellowOutcome(b, acts, score, r);
  }

  /** `minimax`: an optimal action for the player to move, or None when no action is
      offered. R keeps an action of greatest `min_value(result(board, action))`, Y one of
      least `max_value(result(board, action))`; the strict comparison keeps the first
      optimum, here in column order. */
  method Minimax(b: Board) returns (r: Result<Option<Action>>)
    requires WellFormed(b)
    ensures Gravity(b) ==> r.Ok?
    ensures Player(b) == R ==> (r.Ok? <==> forall a :: IsAction(b, a) ==> MinScore(b, a).Ok?)
    ensures Player(b) == Y ==> (r.Ok? <==> forall a :: IsAction(b, a) ==> MaxScore(b, a).Ok?)
    ensures r.Ok? ==> (r.value.None? <==> forall a :: !IsAction(b, a))
    ensures r.Ok? && r.value.Some? ==> IsAction(b, r.value.value)
    ensures r.Ok? && r.value.Some? && Player(b) == R ==> RedOptimal(b, r.value.value)
    ensures r.Ok? && r.value.Some? && Player(b) == Y ==> YellowOptimal(b, r.value.value)
  {
    var toPlay := Player(b) == R;
    if toPlay {
      r := BestForRed(b);
    } else {
      r := BestForYellow(b);
    }
  }
}
