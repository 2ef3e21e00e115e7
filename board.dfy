/**
 * The game-state engine (src/reducers/board.tsx): board snapshots, the object
 * index that the Board constructor rebuilds from them, the snapshot-to-snapshot
 * operations and the action reducer.
 */
module Boards {
  import opened Wrappers
  import opened Positions
  import opened DLNodes
  import opened DLLists

  /** Board sizes: `trim(size)` is only meaningful for a positive size. */
  type Size = n: int | n > 0 witness 5

  /** The snake's cells from head to tail; a DLList always holds at least its head. */
  type Body = s: seq<Position> | |s| > 0 witness [Position(0, 0)]

  /** BoardObjectType; BOMB is left out because no operation creates one. */
  datatype Kind = Food | Snake

  datatype BoardObject = BoardObject(kind: Kind, pos: Position)

  /** The object index, keyed by `Position.toString()`. */
  type BoardObjects = map<string, BoardObject>

  /** BoardStateShort: the six fields every Board is built from. */
  datatype Board = Board(size: Size, snake: Body, food: seq<Position>, gameOver: bool, timer: bool, direction: Direction)

  datatype BoardError = BoardFull

  const DefaultSize: Size := 5

  predicate NoDup(s: seq<Position>)
  {
    forall i, j :: 0 <= i < j < |s| ==> s[i] != s[j]
  }

  function Last(s: Body): Position
  {
    s[|s| - 1]
  }

  /** Every snake and food cell lies on the board. */
  predicate InGrid(b: Board)
  {
    && (forall p :: p in b.snake ==> InBounds(p, b.size))
    && (forall p :: p in b.food ==> InBounds(p, b.size))
  }

  /** The occupied cells. */
  ghost function Cells(b: Board): set<Position>
  {
    set p | p in b.snake + b.food
  }

  // ---------------------------------------------------------------------
  // Construction: the initial snapshot and the object index
  // ---------------------------------------------------------------------

  /** `getInitialSnake()`: one segment on the centre cell `(floor(size/2), floor(size/2))`. */
  function InitialSnake(size: Size): (s: Body)
    ensures |s| == 1 && InBounds(s[0], size)
    ensures s[0].x == s[0].y && size - 1 <= 2 * s[0].x <= size
  {
    var h := size / 2;
    [Position(h, h)]
  }

  /** `new Board()`: size 5, the snake on (2,2), no food, game running, timer stopped, heading RIGHT. */
  function Initial(): (b: Board)
    ensures b.size == 5 && b.snake == [Position(2, 2)] && b.food == []
    ensures !b.gameOver && !b.timer && b.direction == Right
  {
    Board(DefaultSize, InitialSnake(DefaultSize), [], false, false, Right)
  }

  /**
   * What `reducer(positions, kind)` builds: each position stored under its
   * key, tagged with `kind`, and nothing else.
   */
  function Tagged(ps: seq<Position>, kind: Kind): (m: BoardObjects)
    ensures forall p :: Key(p) in m <==> p in ps
    ensures forall p :: Key(p) in m ==> m[Key(p)] == BoardObject(kind, p)
    ensures forall k :: k in m ==> Key(m[k].pos) == k
  {
    if ps == [] then map[]
    else
      var p := ps[|ps| - 1];
      KeysInjective();
      assert forall q :: q in ps <==> q == p || q in ps[..|ps| - 1];
      Tagged(ps[..|ps| - 1], kind)[Key(p) := BoardObject(kind, p)]
  }

  /**
   * The index `updateObjects()` stores in every new Board: exactly the snake
   * cells tagged SNAKE and the food cells tagged FOOD, food winning where
   * the two share a cell, each entry under its own position's key.
   */
  function Objects(b: Board): (m: BoardObjects)
    ensures forall p :: Key(p) in m <==> p in b.snake || p in b.food
    ensures forall p :: p in b.food ==> m[Key(p)] == BoardObject(Food, p)
    ensures forall p :: p in b.snake && p !in b.food ==> m[Key(p)] == BoardObject(Snake, p)
    ensures forall k :: k in m ==> Key(m[k].pos) == k
  {
    Tagged(b.snake, Snake) + Tagged(b.food, Food)
  }

  /** `reducer(positions, type)`: fills an initially empty map one position at a time. */
  method Reducer(positions: seq<Position>, kind: Kind) returns (objects: BoardObjects)
    ensures objects == Tagged(positions, kind)
  {
    objects := map[];
    for i := 0 to |positions|
      invariant objects == Tagged(positions[..i], kind)
    {
      var p := positions[i];
      assert positions[..i + 1][..i] == positions[..i];
      assert Tagged(positions[..i + 1], kind) == Tagged(positions[..i], kind)[Key(p) := BoardObject(kind, p)];
      objects := objects[Key(p) := BoardObject(kind, p)];
    }
    assert positions[..|positions|] == positions;
  }

  /** `updateObjects()`: the snake's index merged with the food's, the food's entries winning. */
  method UpdateObjects(b: Board) returns (objects: BoardObjects)
    ensures objects == Objects(b)
  {
    var snakeObjects := Reducer(b.snake, Snake);
    var foodObjects := Reducer(b.food, Food);
    objects := snakeObjects + foodObjects;
  }

  // ---------------------------------------------------------------------
  // Counting cells: the board, the index, the free cells
  // ---------------------------------------------------------------------

  /** Row `y` of an `n`-wide board, left to right. */
  function Row(y: int, n: nat): seq<Position>
  {
    seq(n, x => Position(x, y))
  }

  /** Rows `0 .. k-1` of an `n`-wide board, row after row. */
  function Rows(k: nat, n: nat): seq<Position>
  {
    if k == 0 then [] else Rows(k - 1, n) + Row(k - 1, n)
  }

  function Grid(n: Size): seq<Position>
  {
    Rows(n, n)
  }

  lemma {:induction false} RowsLength(k: nat, n: nat)
    ensures |Rows(k, n)| == k * n
  {
    if k > 0 {
      RowsLength(k - 1, n);
      assert (k - 1) * n + n == k * n;
    }
  }

  lemma {:induction false} RowsMembers(k: nat, n: nat)
    ensures forall p :: p in Rows(k, n) <==> 0 <= p.x < n && 0 <= p.y < k
  {
    if k > 0 {
      RowsMembers(k - 1, n);
      var r := Row(k - 1, n);
      forall p: Position | 0 <= p.x < n && p.y == k - 1
        ensures p in r
      {
        assert r[p.x] == p;
      }
    }
  }

  lemma {:induction false} RowsNoDup(k: nat, n: nat)
    ensures NoDup(Rows(k, n))
  {
    if k > 0 {
      RowsNoDup(k - 1, n);
      RowsMembers(k - 1, n);
      var a, r := Rows(k - 1, n), Row(k - 1, n);
      forall i, j | 0 <= i < j < |a + r|
        ensures (a + r)[i] != (a + r)[j]
      {
        if j < |a| {
        } else if i < |a| {
          assert a[i] in a;
        }
      }
    }
  }

  /** The grid lists every board cell exactly once: n² distinct cells. */
  lemma RowsSpec(k: nat, n: nat)
    ensures |Rows(k, n)| == k * n
    ensures forall p :: p in Rows(k, n) <==> 0 <= p.x < n && 0 <= p.y < k
    ensures NoDup(Rows(k, n))
  {
    RowsLength(k, n);
    RowsMembers(k, n);
    RowsNoDup(k, n);
  }

  lemma {:induction false} NoDupCard(s: seq<Position>)
    requires NoDup(s)
    ensures |set p | p in s| == |s|
  {
    if s != [] {
      var t := s[..|s| - 1];
      NoDupCard(t);
      assert (set p | p in s) == (set p | p in t) + {s[|s| - 1]};
    }
  }

  /** Distinct positions have distinct keys, so a set of positions has as many keys as members. */
  lemma {:induction false} KeyImageCard(cells: set<Position>)
    ensures |set p | p in cells :: Key(p)| == |cells|
    decreases |cells|
  {
    if cells != {} {
      var c :| c in cells;
      var rest := cells - {c};
      KeyImageCard(rest);
      var keys, restKeys := set p | p in cells :: Key(p), set p | p in rest :: Key(p);
      forall p | p in rest
        ensures Key(p) != Key(c)
      {
        KeyInjective(p, c);
      }
      assert Key(c) !in restKeys;
      assert keys == restKeys + {Key(c)};
    }
  }

  lemma SubsetCard(a: set<Position>, b: set<Position>)
    requires a <= b
    ensures |a| <= |b|
    ensures |a| == |b| ==> a == b
  {
    assert b == a + (b - a);
    assert a * (b - a) == {};
  }

  /** What the index holds at cell `p`: an entry exactly when `p` is occupied, a FOOD entry exactly when `p` holds food. */
  lemma ObjectAt(b: Board, p: Position)
    ensures Key(p) in Objects(b) <==> p in b.snake || p in b.food
    ensures Key(p) in Objects(b) ==> (Objects(b)[Key(p)].kind == Food <==> p in b.food)
  {
  }

  /** The index's keys are the keys of the occupied cells. */
  lemma IndexKeys(b: Board)
    ensures Objects(b).Keys == set p | p in Cells(b) :: Key(p)
  {
    var m, cells := Objects(b), Cells(b);
    var keys := set p | p in cells :: Key(p);
    forall k | k in m
      ensures k in keys
    {
      var p := m[k].pos;
      assert Key(p) == k && p in cells;
    }
    forall k | k in keys
      ensures k in m
    {
      var p :| p in cells && Key(p) == k;
      ObjectAt(b, p);
    }
  }

  /** The index has one entry per occupied cell. */
  lemma ObjectsCount(b: Board)
    ensures |Objects(b)| == |Cells(b)|
  {
    IndexKeys(b);
    KeyImageCard(Cells(b));
  }

  /** At most size² cells are occupied, and exactly size² when every board cell is. */
  lemma CellsCount(b: Board)
    requires InGrid(b)
    ensures |Cells(b)| <= b.size * b.size
    ensures |Cells(b)| == b.size * b.size <==> forall p :: InBounds(p, b.size) ==> p in Cells(b)
  {
    var n := b.size;
    var grid := set p | p in Grid(n);
    var cells := Cells(b);
    RowsSpec(n, n);
    NoDupCard(Grid(n));
    forall p | p in cells
      ensures p in grid
    {
      assert InBounds(p, n);
    }
    SubsetCard(cells, grid);
    if |cells| == n * n {
      forall p | InBounds(p, n)
        ensures p in cells
      {
        assert p in grid;
      }
    }
    assert |grid| == n * n;
    if forall p :: InBounds(p, n) ==> p in cells {
      forall p | p in grid
        ensures p in cells
      {
        assert InBounds(p, n);
      }
      assert cells == grid;
    }
  }

  /**
   * The source's fullness test `_.size(objects) === size * size` holds
   * exactly when every cell of the board is occupied.
   */
  lemma FullIffAllOccupied(b: Board)
    requires InGrid(b)
    ensures |Objects(b)| <= b.size * b.size
    ensures |Objects(b)| == b.size * b.size <==> forall p :: InBounds(p, b.size) ==> Key(p) in Objects(b)
  {
    CellsCount(b);
    ObjectsCount(b);
    forall p
      ensures Key(p) in Objects(b) <==> p in Cells(b)
    {
      ObjectAt(b, p);
    }
  }

  /** `l` without its cells that hold an entry of `objects`, in order. */
  function FreeAmong(l: seq<Position>, objects: BoardObjects): (free: seq<Position>)
    ensures forall p :: p in free <==> p in l && Key(p) !in objects
  {
    if l == [] then []
    else (if Key(l[0]) in objects then [] else [l[0]]) + FreeAmong(l[1..], objects)
  }

  /** The free cells of the board, row by row. */
  function FreeCells(b: Board): (free: seq<Position>)
    ensures forall p :: p in free <==> InBounds(p, b.size) && Key(p) !in Objects(b)
  {
    RowsSpec(b.size, b.size);
    FreeAmong(Grid(b.size), Objects(b))
  }

  lemma FreeCellExists(b: Board)
    requires InGrid(b) && |Objects(b)| != b.size * b.size
    ensures |FreeCells(b)| > 0
  {
    FullIffAllOccupied(b);
    var c :| InBounds(c, b.size) && Key(c) !in Objects(b);
    assert c in FreeCells(b);
  }

  /**
   * `getFreeCell()`: undefined exactly when the index already covers
   * size² cells, otherwise a board cell the index does not hold. The random
   * retry loop is replaced by `draw`, which selects among the free cells.
   */
  function GetFreeCell(b: Board, draw: nat): (r: Option<Position>)
    requires InGrid(b)
    ensures r.None? <==> |Objects(b)| == b.size * b.size
    ensures r.Some? ==> InBounds(r.value, b.size) && Key(r.value) !in Objects(b)
  {
    if |Objects(b)| == b.size * b.size then None
    else
      FreeCellExists(b);
      var free := FreeCells(b);
      Some(free[draw % |free|])
  }

  /** Every free cell is a possible outcome of `getFreeCell()`. */
  lemma FreeCellDrawable(b: Board, c: Position) returns (draw: nat)
    requires InGrid(b) && InBounds(c, b.size) && Key(c) !in Objects(b)
    ensures GetFreeCell(b, draw) == Some(c)
  {
    FullIffAllOccupied(b);
    var free := FreeCells(b);
    var i :| 0 <= i < |free| && free[i] == c;
    SmallMod(i, |free|);
    draw := i;
  }

  // ---------------------------------------------------------------------
  // The operations
  // ---------------------------------------------------------------------

  /**
   * `placeFood()`: fails with "Board is full" exactly when the index covers
   * size² cells; otherwise appends one free board cell to the food and
   * changes nothing else.
   */
  function PlaceFood(b: Board, draw: nat): (r: Result<Board, BoardError>)
    requires InGrid(b)
    ensures r.Err? <==> |Objects(b)| == b.size * b.size
    ensures r.Err? ==> r.error == BoardFull
    ensures r.Ok? ==> |r.value.food| == |b.food| + 1 && r.value.food[..|b.food|] == b.food
    ensures r.Ok? ==> var c := r.value.food[|b.food|];
      InBounds(c, b.size) && Key(c) !in Objects(b) && c !in b.snake && c !in b.food
    ensures r.Ok? ==> r.value == b.(food := r.value.food)
  {
    match GetFreeCell(b, draw)
    case None => Err(BoardFull)
    case Some(c) => Ok(b.(food := b.food + [c]))
  }

  function StartTimer(b: Board): (r: Board)
    ensures r.timer && r == b.(timer := r.timer)
  {
    b.(timer := true)
  }

  function StopTimer(b: Board): (r: Board)
    ensures !r.timer && r == b.(timer := r.timer)
  {
    b.(timer := false)
  }

  /** `isOpposite(d1, d2)`: exactly the pairs LEFT/RIGHT and UP/DOWN, in either order. */
  function IsOpposite(d1: Direction, d2: Direction): (r: bool)
    ensures r <==> d2 == Reverse(d1)
    ensures r <==> d1 == Reverse(d2)
    ensures r ==> d1 != d2
  {
    || (d1 == Right && d2 == Left)
    || (d1 == Left && d2 == Right)
    || (d1 == Up && d2 == Down)
    || (d1 == Down && d2 == Up)
  }

  /**
   * `setDirection(d)`: the snapshot unchanged when `d` reverses the current
   * direction of a snake longer than one cell, otherwise only the direction
   * replaced by `d`; so the new direction of a longer snake is never the
   * opposite of the stored one.
   */
  function SetDirection(b: Board, d: Direction): (r: Board)
    ensures IsOpposite(b.direction, d) && |b.snake| != 1 ==> r == b
    ensures !(IsOpposite(b.direction, d) && |b.snake| != 1) ==> r == b.(direction := d)
    ensures |b.snake| != 1 ==> !IsOpposite(b.direction, r.direction)
  {
    if IsOpposite(b.direction, d) && |b.snake| != 1 then b
    else b.(direction := d)
  }

  /**
   * The reversal guard as evidently intended: a turn is refused exactly when
   * it would take the head straight into the neck, the segment behind it.
   * Unlike SetDirection's test against the stored direction, no sequence of
   * turns between two moves can point the snake into its neck.
   */
  function SetDirectionCorrected(b: Board, d: Direction): (r: Board)
    ensures r == b || r == b.(direction := d)
    ensures |b.snake| > 1 && NextHead(b, d) == b.snake[1] ==> r == b
    ensures |b.snake| == 1 || NextHead(b, d) != b.snake[1] ==> r.direction == d
    ensures |b.snake| > 1 && NextHead(b, b.direction) != b.snake[1] ==> NextHead(r, r.direction) != r.snake[1]
  {
    if |b.snake| > 1 && NextHead(b, d) == b.snake[1] then b else b.(direction := d)
  }

  /** The cell the head enters: one step in `d`, trimmed onto the board. */
  function NextHead(b: Board, d: Direction): (h: Position)
    ensures InBounds(h, b.size)
  {
    Trim(To(b.snake[0], d), b.size)
  }

  /** Entering `h` follows the tail out of its cell; the source excludes a snake of length 2. */
  predicate Vacating(b: Board, h: Position)
  {
    IsEqual(h, Last(b.snake)) && |b.snake| != 2
  }

  /** The body after a plain step into `h`: `h` in front, every cell but the tail behind it. */
  function Shifted(s: Body, h: Position): (r: Body)
    ensures |r| == |s| && r[0] == h
    ensures forall i :: 0 < i < |s| ==> r[i] == s[i - 1]
  {
    [h] + s[..|s| - 1]
  }

  /** The board after the head enters the food cell `h`: the body grows by `h`, that food is dropped. */
  function Eat(b: Board, h: Position): (r: Board)
    ensures |r.snake| == |b.snake| + 1 && r.snake[0] == h && r.snake[1..] == b.snake
    ensures forall q :: q in r.food <==> q in b.food && q != h
    ensures r.(snake := b.snake, food := b.food) == b
    ensures InGrid(b) && InBounds(h, b.size) ==> InGrid(r)
  {
    b.(snake := [h] + b.snake, food := Reject(b.food, h))
  }

  /**
   * `moveTo(d)`, classified by what occupies the entered cell `h`: a free
   * cell or the vacating tail shifts the snake by one cell; food grows the
   * snake at the head, drops that food and places a new one; any other
   * snake cell only sets gameOver. The stored direction never changes.
   */
  function MoveTo(b: Board, d: Direction, draw: nat): (r: Result<Board, BoardError>)
    requires InGrid(b)
    ensures var h := NextHead(b, d);
      (h !in b.snake && h !in b.food) || Vacating(b, h) ==>
        r == Ok(b.(snake := Shifted(b.snake, h)))
    ensures var h := NextHead(b, d);
      h in b.food && !Vacating(b, h) ==>
        r == PlaceFood(Eat(b, h), draw)
    ensures var h := NextHead(b, d);
      h in b.snake && h !in b.food && !Vacating(b, h) ==> r == Ok(b.(gameOver := true))
    ensures r.Ok? ==> r.value.direction == b.direction && r.value.size == b.size
    ensures r.Ok? ==> r.value.timer == b.timer && (b.gameOver ==> r.value.gameOver)
  {
    var h := NextHead(b, d);
    var objects := Objects(b);
    var key := Key(h);
    ObjectAt(b, h);
    if key !in objects || (IsEqual(h, Last(b.snake)) && |b.snake| != 2) then
      Ok(b.(snake := Shifted(b.snake, h)))
    else if objects[key].kind == Food then
      PlaceFood(Eat(b, h), draw)
    else
      Ok(b.(gameOver := true))
  }

  /** `move()`: a move in the stored direction. */
  function Move(b: Board, draw: nat): (r: Result<Board, BoardError>)
    requires InGrid(b)
    ensures r == MoveTo(b, b.direction, draw)
  {
    MoveTo(b, b.direction, draw)
  }

  /**
   * `R.reject(f => f.isEqual(p), s)`: `s` without the occurrences of `p`;
   * one element shorter when `p` occurs once (see also RejectCounts).
   */
  function Reject(s: seq<Position>, p: Position): (r: seq<Position>)
    ensures forall q :: q in r <==> q in s && q != p
    ensures p !in s ==> r == s
    ensures NoDup(s) ==> NoDup(r)
    ensures p in s && NoDup(s) ==> |r| == |s| - 1
  {
    if s == [] then []
    else if IsEqual(s[0], p) then Reject(s[1..], p)
    else
      var t := Reject(s[1..], p);
      NoDupCons(s[0], t);
      [s[0]] + t
  }

  /** `Reject` removes every occurrence of `p` and keeps every other cell as often as it occurs. */
  lemma {:induction false} RejectCounts(s: seq<Position>, p: Position)
    ensures multiset(Reject(s, p)) == multiset(s)[p := 0]
    ensures |Reject(s, p)| == |s| - multiset(s)[p]
  {
    if s != [] {
      assert s == [s[0]] + s[1..];
      RejectCounts(s[1..], p);
    }
  }

  lemma NoDupCons(x: Position, t: seq<Position>)
    ensures NoDup(t) && x !in t ==> NoDup([x] + t)
  {
    if NoDup(t) && x !in t {
      forall i, j | 0 <= i < j < |[x] + t|
        ensures ([x] + t)[i] != ([x] + t)[j]
      {
        if i == 0 {
          assert ([x] + t)[j] == t[j - 1];
        }
      }
    }
  }

  // ---------------------------------------------------------------------
  // The DLList calls inside moveTo
  // ---------------------------------------------------------------------

  /**
   * `snake.appendToHead(new DLNode(h)).deleteTail()`: a new head node holding
   * `h` in front of the old nodes but the tail, which ends up fully unlinked.
   */
  method MoveBody(snake: DLList<Position>, h: Position) returns (moved: DLList<Position>)
    requires snake.Chain()
    modifies set k | 0 <= k < |snake.nodes| :: snake.nodes[k]
    ensures moved.Valid() && fresh(moved.head)
    ensures moved.nodes == [moved.head] + snake.nodes[..|snake.nodes| - 1]
    ensures moved.Values() == [h] + snake.Values()[..|snake.nodes| - 1]
    ensures snake.tail.prev == null && snake.tail.next == null
  {
    var node := new DLNode(h);
    var grown := snake.AppendToHead(node);
    assert grown.tail.next == grown.nodes[|grown.nodes| - 2];
    var r := grown.DeleteTail();
    moved := r.value;
  }

  /** `snake.appendToHead(new DLNode(h))` in moveTo's food branch: a new head node holding `h` in front of the whole body. */
  method GrowBody(snake: DLList<Position>, h: Position) returns (grown: DLList<Position>)
    requires snake.Chain()
    modifies snake.head
    ensures grown.Valid() && fresh(grown.head)
    ensures grown.nodes == [grown.head] + snake.nodes
    ensures grown.Values() == [h] + snake.Values()
    ensures snake.head.next == grown.head
  {
    var node := new DLNode(h);
    grown := snake.AppendToHead(node);
  }

  // ---------------------------------------------------------------------
  // The action reducer
  // ---------------------------------------------------------------------

  /** The actions BoardReducer distinguishes; every other action type is `Unrecognised`. */
  datatype Action =
    | MoveSnake(direction: Direction)
    | PlaceFoodAction
    | ResetAction
    | StartTimerAction
    | SetDirectionAction(direction: Direction)
    | Tick
    | Unrecognised

  /**
   * `BoardReducer(state, action)`: a missing state stands for the initial
   * board; each recognised action rebuilds the Board and applies one
   * operation, an unrecognised one returns the state as it is. Only the
   * actions that place food can fail, and only RESET clears gameOver.
   */
  function BoardReducer(state: Option<Board>, action: Action, draw: nat): (r: Result<Board, BoardError>)
    requires state.Some? ==> InGrid(state.value)
    ensures r.Err? ==> action.MoveSnake? || action.PlaceFoodAction? || action.Tick?
    ensures state.Some? && state.value.gameOver && !action.ResetAction? && r.Ok? ==> r.value.gameOver
    ensures action.ResetAction? ==> r.Ok? && r.value == Initial().(food := r.value.food) && |r.value.food| == 1
  {
    var s := if state.Some? then state.value else Initial();
    match action
    case MoveSnake(d) => MoveTo(s, d, draw)
    case PlaceFoodAction => PlaceFood(s, draw)
    case ResetAction => ResetNeverFull(draw); PlaceFood(Initial(), draw)
    case StartTimerAction => Ok(StartTimer(s))
    case SetDirectionAction(d) => Ok(SetDirection(s, d))
    case Tick => Move(s, draw)
    case Unrecognised => Ok(s)
  }

  /** The initial board has one occupied cell, so placing food on it never fails. */
  lemma ResetNeverFull(draw: nat)
    ensures PlaceFood(Initial(), draw).Ok?
  {
    var b := Initial();
    var m := Objects(b);
    forall k | k in m
      ensures k == Key(Position(2, 2))
    {
      assert m[k].pos == Position(2, 2);
    }
    assert m.Keys == {Key(Position(2, 2))};
  }
}
