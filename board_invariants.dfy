/**
 * Invariants of the snapshots the reducer produces (src/reducers/board.tsx):
 * every cell on the board, no cell listed twice, food never under the snake,
 * and a body whose segments are neighbours on the torus. Every operation and
 * every action keeps them, and the index then has one entry per snake or food
 * cell, so the fullness test counts snake and food together.
 */
module BoardInvariants {
  import opened Wrappers
  import opened Positions
  import opened Boards

  /** Cells on the board, no duplicates in snake or food, no food under the snake. */
  predicate Wf(b: Board)
  {
    && InGrid(b)
    && NoDup(b.snake)
    && NoDup(b.food)
    && (forall p :: p in b.food ==> p !in b.snake)
  }

  /** `q` is one step from `p` on the n-by-n torus. */
  predicate Adjacent(p: Position, q: Position, n: int)
  {
    q == Neighbour(p, Up, n) || q == Neighbour(p, Down, n) || q == Neighbour(p, Left, n) || q == Neighbour(p, Right, n)
  }

  /** Each segment lies one step from the segment behind it. */
  predicate Connected(s: seq<Position>, n: int)
  {
    forall i :: 0 <= i < |s| - 1 ==> Adjacent(s[i + 1], s[i], n)
  }

  predicate Invariant(b: Board)
  {
    Wf(b) && Connected(b.snake, b.size)
  }

  lemma InitialInvariant()
    ensures Invariant(Initial())
  {
  }

  lemma NoDupAppend(a: seq<Position>, c: seq<Position>)
    requires NoDup(a) && NoDup(c)
    requires forall p :: p in c ==> p !in a
    ensures NoDup(a + c)
  {
    forall i, j | 0 <= i < j < |a + c|
      ensures (a + c)[i] != (a + c)[j]
    {
      if i < |a| <= j {
        assert (a + c)[j] == c[j - |a|] && c[j - |a|] in c;
      }
    }
  }

  /** For a well-formed board the index has exactly one entry per snake cell and per food cell. */
  lemma ObjectsSize(b: Board)
    requires Wf(b)
    ensures |Objects(b)| == |b.snake| + |b.food|
  {
    NoDupAppend(b.snake, b.food);
    NoDupCard(b.snake + b.food);
    ObjectsCount(b);
  }

  /** So `placeFood()` reports "Board is full" exactly when snake and food cover all size² cells. */
  lemma PlaceFoodFull(b: Board, draw: nat)
    requires Wf(b)
    ensures PlaceFood(b, draw).Err? <==> |b.snake| + |b.food| == b.size * b.size
  {
    ObjectsSize(b);
  }

  /** Adding food on a free board cell keeps the invariants. */
  lemma AddFoodKeeps(b: Board, c: Position)
    requires Invariant(b) && InBounds(c, b.size) && c !in b.snake && c !in b.food
    ensures Invariant(b.(food := b.food + [c]))
  {
    NoDupAppend(b.food, [c]);
  }

  lemma PlaceFoodKeeps(b: Board, draw: nat)
    requires Invariant(b)
    ensures PlaceFood(b, draw).Ok? ==> Invariant(PlaceFood(b, draw).value)
  {
    var r := PlaceFood(b, draw);
    if r.Ok? {
      var c := r.value.food[|b.food|];
      assert r.value.food == b.food + [c];
      AddFoodKeeps(b, c);
    }
  }

  /** The step cell is the torus neighbour of the head. */
  lemma HeadAdjacent(b: Board, d: Direction)
    requires InGrid(b)
    ensures Adjacent(b.snake[0], NextHead(b, d), b.size)
  {
    StepWraps(b.snake[0], d, b.size);
  }

  lemma ShiftedKeeps(b: Board, d: Direction)
    requires Invariant(b)
    requires var h := NextHead(b, d); (h !in b.snake && h !in b.food) || Vacating(b, h)
    ensures Invariant(b.(snake := Shifted(b.snake, NextHead(b, d))))
  {
    var h, s, n := NextHead(b, d), b.snake, b.size;
    var front := s[..|s| - 1];
    var s' := Shifted(s, h);
    assert s' == [h] + front;
    assert h !in front by {
      if h in s {
        assert h == s[|s| - 1];
      }
    }
    NoDupCons(h, front);
    HeadAdjacent(b, d);
    forall i | 0 <= i < |s'| - 1
      ensures Adjacent(s'[i + 1], s'[i], n)
    {
      if i > 0 {
        assert s'[i + 1] == s[i] && s'[i] == s[i - 1];
      }
    }
  }

  lemma EatKeeps(b: Board, d: Direction)
    requires Invariant(b)
    requires NextHead(b, d) in b.food
    ensures Invariant(Eat(b, NextHead(b, d)))
  {
    var h, s, n := NextHead(b, d), b.snake, b.size;
    var e := Eat(b, h);
    NoDupCons(h, s);
    HeadAdjacent(b, d);
    forall i | 0 <= i < |e.snake| - 1
      ensures Adjacent(e.snake[i + 1], e.snake[i], n)
    {
      if i > 0 {
        assert e.snake[i + 1] == s[i] && e.snake[i] == s[i - 1];
      }
    }
  }

  /** Turning and switching the timer keep the invariants: they change neither the snake nor the food. */
  lemma SettingsKeep(b: Board, d: Direction)
    requires Invariant(b)
    ensures Invariant(SetDirection(b, d)) && Invariant(SetDirectionCorrected(b, d))
    ensures Invariant(StartTimer(b)) && Invariant(StopTimer(b))
  {
    SameCellsKeep(b, SetDirection(b, d));
    SameCellsKeep(b, SetDirectionCorrected(b, d));
    SameCellsKeep(b, StartTimer(b));
    SameCellsKeep(b, StopTimer(b));
  }

  /** The invariants depend only on the size, the snake and the food. */
  lemma SameCellsKeep(b: Board, c: Board)
    requires Invariant(b) && c.size == b.size && c.snake == b.snake && c.food == b.food
    ensures Invariant(c)
  {
  }

  /** A plain step (free cell or vacating tail) keeps the invariants. */
  lemma StepKeeps(b: Board, d: Direction, draw: nat)
    requires Invariant(b)
    requires var h := NextHead(b, d); (h !in b.snake && h !in b.food) || Vacating(b, h)
    ensures MoveTo(b, d, draw).Ok? && Invariant(MoveTo(b, d, draw).value)
  {
    assert MoveTo(b, d, draw) == Ok(b.(snake := Shifted(b.snake, NextHead(b, d))));
    ShiftedKeeps(b, d);
  }

  /** Eating the food ahead, then placing a new one, keeps the invariants. */
  lemma EatStepKeeps(b: Board, d: Direction, draw: nat)
    requires Invariant(b)
    requires var h := NextHead(b, d); h in b.food && !Vacating(b, h)
    ensures MoveTo(b, d, draw).Ok? ==> Invariant(MoveTo(b, d, draw).value)
  {
    var h := NextHead(b, d);
    assert MoveTo(b, d, draw) == PlaceFood(Eat(b, h), draw);
    EatKeeps(b, d);
    PlaceFoodKeeps(Eat(b, h), draw);
  }

  /**
   * Eating while the board has room never fails: the body grows by the food
   * cell, the eaten food is replaced by one new food elsewhere.
   */
  lemma EatOutcome(b: Board, d: Direction, draw: nat)
    requires Invariant(b)
    requires var h := NextHead(b, d); h in b.food && !Vacating(b, h)
    requires |b.snake| + |b.food| < b.size * b.size
    ensures var r := MoveTo(b, d, draw);
      && r.Ok? && Invariant(r.value)
      && r.value.snake == [NextHead(b, d)] + b.snake
      && |r.value.food| == |b.food|
      && r.value.gameOver == b.gameOver
  {
    var h := NextHead(b, d);
    var e := Eat(b, h);
    assert MoveTo(b, d, draw) == PlaceFood(e, draw);
    EatStepKeeps(b, d, draw);
    EatKeeps(b, d);
    ObjectsSize(e);
  }

  /** Running into the body only ends the game. */
  lemma CollisionKeeps(b: Board, d: Direction, draw: nat)
    requires Invariant(b)
    requires var h := NextHead(b, d); h in b.snake && h !in b.food && !Vacating(b, h)
    ensures MoveTo(b, d, draw) == Ok(b.(gameOver := true)) && Invariant(MoveTo(b, d, draw).value)
  {
    var r := b.(gameOver := true);
    assert r.snake == b.snake && r.food == b.food && r.size == b.size;
    assert Invariant(r);
  }

  /** `moveTo(d)` keeps every invariant. */
  lemma MoveToKeeps(b: Board, d: Direction, draw: nat)
    requires Invariant(b)
    ensures MoveTo(b, d, draw).Ok? ==> Invariant(MoveTo(b, d, draw).value)
  {
    var h := NextHead(b, d);
    if (h !in b.snake && h !in b.food) || Vacating(b, h) {
      StepKeeps(b, d, draw);
    } else if h in b.food {
      EatStepKeeps(b, d, draw);
    } else {
      CollisionKeeps(b, d, draw);
    }
  }

  /**
   * What one move does to the counts: a plain step keeps the length and the
   * food, eating adds one segment and replaces the eaten food, and the move
   * fails only when snake and food already covered the whole board.
   */
  lemma MoveToCounts(b: Board, d: Direction, draw: nat)
    requires Invariant(b)
    ensures var r := MoveTo(b, d, draw);
      r.Ok? ==>
        || (|r.value.snake| == |b.snake| && r.value.food == b.food)
        || (|r.value.snake| == |b.snake| + 1 && |r.value.food| == |b.food|)
    ensures MoveTo(b, d, draw).Err? ==> |b.snake| + |b.food| == b.size * b.size
  {
    var h := NextHead(b, d);
    if h in b.food && !Vacating(b, h) {
      var e := Eat(b, h);
      EatKeeps(b, d);
      ObjectsSize(e);
      var r := PlaceFood(e, draw);
      if r.Ok? {
        assert |r.value.food| == |e.food| + 1;
      }
    }
  }

  /** Every action keeps the invariants, and only RESET changes the board size. */
  lemma ReducerKeeps(state: Option<Board>, action: Action, draw: nat)
    requires state.Some? ==> Invariant(state.value)
    ensures var r := BoardReducer(state, action, draw);
      r.Ok? ==> Invariant(r.value)
    ensures var r := BoardReducer(state, action, draw);
      r.Ok? && state.Some? && !action.ResetAction? ==> r.value.size == state.value.size
  {
    var s := if state.Some? then state.value else Initial();
    match action
    case MoveSnake(d) => MoveToKeeps(s, d, draw);
    case PlaceFoodAction => PlaceFoodKeeps(s, draw);
    case ResetAction => PlaceFoodKeeps(Initial(), draw);
    case StartTimerAction =>
    case SetDirectionAction(d) =>
    case Tick => MoveToKeeps(s, s.direction, draw);
    case Unrecognised =>
  }
}
