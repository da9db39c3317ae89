/** The rules of the snake game as values: directions, the movement
    interval, the queue of pending turns the arrow keys fill, one frame of
    the snake's movement with its food and collision outcomes, and the
    colour table. The classes in SnakeGame carry this state and are proved
    against these functions. */
module SnakeLogic {

  import opened Wrappers
  import opened Termloop

  datatype Direction = Up | Down | Left | Right

  datatype Coordinates = Coordinates(x: int, y: int)

  /** The three kinds of food: plain (1 point, grows), favourite (5 points,
      grows, slows down by 3) and speed-up (no points, one faster). */
  datatype FoodKind = Plain | Favourite | SpeedUp

  const DefaultSpeed: int := 8
  const DefaultFps: int := 60
  const MaxPending: nat := 4

  /** isOpposite: up/down and left/right, either way round. */
  predicate IsOpposite(a: Direction, b: Direction) {
    (a == Up && b == Down) || (a == Down && b == Up) || (a == Left && b == Right) || (a == Right && b == Left)
  }

  function Opposite(d: Direction): Direction {
    match d
    case Up => Down
    case Down => Up
    case Left => Right
    case Right => Left
  }

  /** Every direction has exactly one opposite, and the relation is
      symmetric and never relates a direction to itself. */
  lemma OppositeUnique(a: Direction, b: Direction)
    ensures IsOpposite(a, b) <==> b == Opposite(a)
    ensures IsOpposite(a, b) <==> IsOpposite(b, a)
    ensures !IsOpposite(a, a)
  {
  }

  predicate Vertical(d: Direction) {
    d == Up || d == Down
  }

  /** The frames between moves: int(60 / speed), times 1.6 rounded for
      vertical moves (cells are taller than wide), and at least 1. For
      m >= 0, math.Round(m * 1.6) is (16 m + 5) / 10, as 1.6 m is never
      within rounding error of a half. */
  function Interval(speed: int, dir: Direction): (n: int)
    requires speed > 0
    ensures n >= 1
  {
    var base := 60 / speed;
    var scaled := if Vertical(dir) then (16 * base + 5) / 10 else base;
    if scaled < 1 then 1 else scaled
  }

  /** At the default speed the snake moves every 7 frames across and every
      11 frames up or down. */
  lemma DefaultIntervals()
    ensures Interval(DefaultSpeed, Right) == 7 && Interval(DefaultSpeed, Left) == 7
    ensures Interval(DefaultSpeed, Up) == 11 && Interval(DefaultSpeed, Down) == 11
  {
  }

  lemma {:induction false} MulMonotone(q: nat, b: nat, d: nat)
    requires b <= d
    ensures q * b <= q * d
    decreases q
  {
    if q > 0 {
      MulMonotone(q - 1, b, d);
      assert q * b == (q - 1) * b + b;
      assert q * d == (q - 1) * d + d;
    }
  }

  /** The quotient of 60 by a larger speed is no larger. */
  lemma DivMonotone(a: nat, b: nat, d: nat)
    requires 0 < b <= d
    ensures a / d <= a / b
  {
    var q1, q2 := a / b, a / d;
    assert a == q1 * b + a % b && a % b < b;
    assert q2 * d <= a;
    MulMonotone(q2, b, d);
    assert q2 * b < (q1 + 1) * b;
    MulMonotoneIf(q1 + 1, q2, b);
  }

  lemma MulMonotoneIf(x: nat, y: nat, c: nat)
    ensures x <= y ==> x * c <= y * c
  {
    if x <= y {
      MulMonotone(c, x, y);
    }
  }

  /** A faster snake never waits longer, and a vertical move never waits
      less than a horizontal one at the same speed. */
  lemma IntervalMonotone(s1: int, s2: int, dir: Direction)
    requires 0 < s1 <= s2
    ensures Interval(s2, dir) <= Interval(s1, dir)
    ensures Interval(s1, Right) <= Interval(s1, Up)
  {
    DivMonotone(60, s1, s2);
  }

  /** The key's direction, for the four arrows. */
  function KeyDirection(k: Key): Option<Direction> {
    match k
    case ArrowUp => Some(Up)
    case ArrowDown => Some(Down)
    case ArrowLeft => Some(Left)
    case ArrowRight => Some(Right)
    case _ => None
  }

  /** The direction the snake will have once the queue is used up. */
  function Effective(dir: Direction, pending: seq<Direction>): Direction {
    if pending == [] then dir else pending[|pending| - 1]
  }

  /** Snake.Tick: an arrow is queued unless it reverses the effective
      direction, repeats the last queued turn, or the queue is full. */
  function Admit(pending: seq<Direction>, dir: Direction, key: Key): seq<Direction> {
    match KeyDirection(key)
    case None => pending
    case Some(next) =>
      if IsOpposite(Effective(dir, pending), next) then pending
      else if pending != [] && pending[|pending| - 1] == next then pending
      else if |pending| < MaxPending then pending + [next]
      else pending
  }

  /** The queue the keys build: no turn reverses or repeats the one before
      it, the first does not reverse the current direction, at most four. */
  predicate QueueOk(dir: Direction, pending: seq<Direction>) {
    && |pending| <= MaxPending
    && (pending != [] ==> !IsOpposite(dir, pending[0]))
    && (forall i :: 0 < i < |pending| ==> !IsOpposite(pending[i - 1], pending[i]) && pending[i - 1] != pending[i])
  }

  /** Admit adds the key's direction at the end exactly when it is an arrow
      that neither reverses nor repeats the effective direction's last turn
      and there is room; otherwise the queue is unchanged. */
  lemma AdmitSpec(pending: seq<Direction>, dir: Direction, key: Key)
    ensures var r := Admit(pending, dir, key);
      (r == pending || (KeyDirection(key).Some? && r == pending + [KeyDirection(key).value]))
    ensures var r := Admit(pending, dir, key);
      r != pending <==>
        (KeyDirection(key).Some? && !IsOpposite(Effective(dir, pending), KeyDirection(key).value)
         && (pending == [] || pending[|pending| - 1] != KeyDirection(key).value) && |pending| < MaxPending)
  {
  }

  /** Keys keep the queue well-formed. */
  lemma AdmitKeepsQueue(pending: seq<Direction>, dir: Direction, key: Key)
    requires QueueOk(dir, pending)
    ensures QueueOk(dir, Admit(pending, dir, key))
  {
    var r := Admit(pending, dir, key);
    if r != pending {
      var next := KeyDirection(key).value;
      assert r == pending + [next];
      forall i | 0 < i < |r|
        ensures !IsOpposite(r[i - 1], r[i]) && r[i - 1] != r[i]
      {
        if i == |r| - 1 {
          assert r[i - 1] == Effective(dir, pending);
        }
      }
    }
  }

  /** The same key twice is the same key once: a snake registered twice
      and ticked twice ends with the queue of one tick. */
  lemma AdmitIdempotent(pending: seq<Direction>, dir: Direction, key: Key)
    ensures Admit(Admit(pending, dir, key), dir, key) == Admit(pending, dir, key)
  {
    var r := Admit(pending, dir, key);
    if r != pending {
      assert r[|r| - 1] == KeyDirection(key).value;
    }
  }

  /** Heading right, Up then Left queues both turns, so the snake turns
      twice in one move, while Left alone would be refused; Down then Left
      queues both, after which a second Left is a duplicate and Right the
      reverse of the last queued turn. */
  lemma TightTurn()
    ensures Admit(Admit([], Right, ArrowUp), Right, ArrowLeft) == [Up, Left]
    ensures Admit([], Right, ArrowLeft) == []
    ensures Admit(Admit([], Right, ArrowDown), Right, ArrowLeft) == [Down, Left]
    ensures Admit([Down, Left], Right, ArrowLeft) == [Down, Left]
    ensures Admit([Down, Left], Right, ArrowRight) == [Down, Left]
  {
  }

  /** One queued turn taken before a sub-step; a reversal is discarded. */
  function Pop(dir: Direction, pending: seq<Direction>): (Direction, seq<Direction>) {
    if pending == [] then (dir, [])
    else ((if !IsOpposite(pending[0], dir) then pending[0] else dir), pending[1..])
  }

  /** On a well-formed queue the reversal guard never fires: the first turn
      is taken, and what is left is well-formed for the new direction. */
  lemma PopTakesTurn(dir: Direction, pending: seq<Direction>)
    requires QueueOk(dir, pending) && pending != []
    ensures Pop(dir, pending) == (pending[0], pending[1..])
    ensures QueueOk(pending[0], pending[1..])
  {
    OppositeUnique(dir, pending[0]);
    OppositeUnique(pending[0], dir);
    if |pending| > 1 {
      assert pending[1..][0] == pending[1];
    }
    forall i | 0 < i < |pending[1..]|
      ensures !IsOpposite(pending[1..][i - 1], pending[1..][i]) && pending[1..][i - 1] != pending[1..][i]
    {
      assert pending[1..][i - 1] == pending[i] && pending[1..][i] == pending[i + 1];
    }
  }

  function Move(c: Coordinates, d: Direction): Coordinates {
    match d
    case Up => Coordinates(c.x, c.y - 1)
    case Down => Coordinates(c.x, c.y + 1)
    case Left => Coordinates(c.x - 1, c.y)
    case Right => Coordinates(c.x + 1, c.y)
  }

  predicate Adjacent(a: Coordinates, b: Coordinates) {
    (a.x == b.x && (a.y - b.y == 1 || b.y - a.y == 1)) || (a.y == b.y && (a.x - b.x == 1 || b.x - a.x == 1))
  }

  /** The snake's state: entity position, direction, body from tail to head,
      speed, frame counter and queued turns. */
  datatype SnakeState = SnakeState(pos: Coordinates, dir: Direction, body: seq<Coordinates>, speed: int, counter: int, pending: seq<Direction>)

  /** The food: where it is, what it is, and how often it has been moved. */
  datatype FoodState = FoodState(pos: Coordinates, kind: FoodKind, moves: nat)

  /** Where MoveFood puts the food the n-th time; its random placement is a
      parameter of the model. */
  type Placement = nat -> (Coordinates, FoodKind)

  function MoveFood(f: FoodState, place: Placement): FoodState {
    FoodState(place(f.moves + 1).0, place(f.moves + 1).1, f.moves + 1)
  }

  /** What a frame of the snake did: the new snake and food, points scored,
      whether the speed changed, whether the game ended. */
  datatype Frame = Frame(snake: SnakeState, food: FoodState, points: int, speedChanged: bool, over: bool)

  function Head(body: seq<Coordinates>): Coordinates
    requires body != []
  {
    body[|body| - 1]
  }

  /** NewSnake: three segments on row 6 heading right. */
  function InitialSnake(): SnakeState {
    SnakeState(Coordinates(5, 5), Right, [Coordinates(1, 6), Coordinates(2, 6), Coordinates(3, 6)], DefaultSpeed, 0, [])
  }

  /** One sub-step of Snake.Draw: take a queued turn, then hit the border,
      hit the body (tail included, head excluded), eat, or move. */
  function SubStep(f: Frame, border: set<Coordinates>, place: Placement): (r: Frame)
    requires f.snake.body != [] && !f.over
  {
    var s := f.snake;
    var (dir, pending) := Pop(s.dir, s.pending);
    var head := Move(Head(s.body), dir);
    var turned := s.(dir := dir, pending := pending);
    if head in border then f.(snake := turned, over := true)
    else if head in s.body[..|s.body| - 1] then f.(snake := turned, over := true)
    else if head == f.food.pos then
      var food := MoveFood(f.food, place);
      match f.food.kind
      case Favourite =>
        var speed := if s.speed - 3 <= DefaultSpeed then DefaultSpeed else s.speed - 3;
        Frame(turned.(body := s.body + [head], speed := speed, pos := head), food, f.points + 5, true, false)
      case SpeedUp =>
        Frame(turned.(speed := s.speed + 1, pos := head), food, f.points, true, false)
      case Plain =>
        Frame(turned.(body := s.body + [head], pos := head), food, f.points + 1, f.speedChanged, false)
    else f.(snake := turned.(body := s.body[1..] + [head], pos := head))
  }

  /** Points are never taken away. */
  lemma SubStepPoints(f: Frame, border: set<Coordinates>, place: Placement)
    requires f.snake.body != [] && !f.over
    ensures SubStep(f, border, place).points >= f.points
  {
  }

  /** The first k sub-steps, stopping at game over. */
  function SubSteps(f: Frame, border: set<Coordinates>, place: Placement, k: nat): (r: Frame)
    requires f.snake.body != []
    ensures r.snake.body != []
  {
    if k == 0 then f
    else
      var p := SubSteps(f, border, place, k - 1);
      if p.over then p else SubStep(p, border, place)
  }

  /** Once a sub-step ends the game, the later sub-steps do nothing. */
  lemma {:induction false} SubStepsStop(f: Frame, border: set<Coordinates>, place: Placement, j: nat, k: nat)
    requires f.snake.body != [] && j <= k && SubSteps(f, border, place, j).over
    ensures SubSteps(f, border, place, k) == SubSteps(f, border, place, j)
    decreases k
  {
    if k > j {
      SubStepsStop(f, border, place, j, k - 1);
    }
  }

  /** Snake.Draw's movement: count the frame; when the interval is reached,
      reset the counter and take one sub-step, or two when two or more turns
      are queued; after a speed change (and no game over) prime the counter
      one frame before the next move. */
  function Step(s: SnakeState, food: FoodState, border: set<Coordinates>, place: Placement): Frame
    requires s.body != [] && s.speed > 0
  {
    var counter := s.counter + 1;
    if counter < Interval(s.speed, s.dir) then Frame(s.(counter := counter), food, 0, false, false)
    else
      var k := if |s.pending| >= 2 then 2 else 1;
      var r := SubSteps(Frame(s.(counter := 0), food, 0, false, false), border, place, k);
      if r.speedChanged && !r.over && r.snake.speed > 0 then
        r.(snake := r.snake.(counter := Interval(r.snake.speed, r.snake.dir) - 1))
      else r
  }

  predicate Distinct(body: seq<Coordinates>) {
    forall i, j :: 0 <= i < j < |body| ==> body[i] != body[j]
  }

  predicate Connected(body: seq<Coordinates>) {
    forall i :: 0 < i < |body| ==> Adjacent(body[i - 1], body[i])
  }

  /** The shape a snake keeps through every sub-step: a non-empty, distinct,
      connected body, a speed at least the starting one and a queue of
      turns that can all be taken. */
  predicate Sound(s: SnakeState) {
    && s.body != [] && Distinct(s.body) && Connected(s.body)
    && s.speed >= DefaultSpeed
    && QueueOk(s.dir, s.pending)
  }

  /** What every frame keeps: a non-empty, connected body without repeated
      cells, speed at least the default, the counter below the interval and
      a well-formed turn queue. */
  predicate Invariant(s: SnakeState) {
    && s.body != [] && Distinct(s.body) && Connected(s.body)
    && s.speed >= DefaultSpeed
    && 0 <= s.counter < Interval(s.speed, s.dir)
    && QueueOk(s.dir, s.pending)
  }

  lemma InitialInvariant()
    ensures Invariant(InitialSnake())
  {
  }

  lemma MoveAdjacent(c: Coordinates, d: Direction)
    ensures Adjacent(c, Move(c, d)) && Move(c, d) != c
  {
  }

  /** A cell next to the head and not on the rest of the body is not on the
      body at all. */
  lemma FreshHead(body: seq<Coordinates>, head: Coordinates)
    requires body != [] && head != Head(body) && head !in body[..|body| - 1]
    ensures head !in body
  {
    forall i | 0 <= i < |body| ensures body[i] != head {
      if i < |body| - 1 {
        assert body[..|body| - 1][i] == body[i];
      }
    }
  }

  /** Growing by a fresh adjacent head keeps the body connected and free of
      repeats. */
  lemma GrowKeeps(body: seq<Coordinates>, head: Coordinates)
    requires body != [] && Distinct(body) && Connected(body)
    requires Adjacent(Head(body), head) && head !in body
    ensures Distinct(body + [head]) && Connected(body + [head])
  {
    var grown := body + [head];
    forall i | 0 < i < |grown| ensures Adjacent(grown[i - 1], grown[i]) {
      if i < |body| {
        assert grown[i - 1] == body[i - 1] && grown[i] == body[i];
      }
    }
  }

  /** So does moving: the tail cell goes and the fresh head comes. */
  lemma MoveKeeps(body: seq<Coordinates>, head: Coordinates)
    requires body != [] && Distinct(body) && Connected(body)
    requires Adjacent(Head(body), head) && head !in body
    ensures Distinct(body[1..] + [head]) && Connected(body[1..] + [head])
  {
    var n := |body|;
    var moved := body[1..] + [head];
    forall i | 0 < i < |moved| ensures Adjacent(moved[i - 1], moved[i]) {
      if i < n - 1 {
        assert moved[i - 1] == body[i] && moved[i] == body[i + 1];
      } else {
        assert moved[i - 1] == body[n - 1];
      }
    }
    forall i, j | 0 <= i < j < |moved| ensures moved[i] != moved[j] {
      if j < n - 1 {
        assert moved[i] == body[i + 1] && moved[j] == body[j + 1];
      } else {
        assert moved[i] == body[i + 1];
      }
    }
  }

  /** A sub-step keeps the body's shape and the speed floor, takes the first
      queued turn, leaves the counter alone, and scores exactly when the
      body grows. */
  lemma SubStepKeeps(f: Frame, border: set<Coordinates>, place: Placement)
    requires Sound(f.snake) && !f.over
    ensures var r := SubStep(f, border, place);
      && Sound(r.snake) && r.snake.counter == f.snake.counter
      && (r.over ==> r.snake.body == f.snake.body && r.points == f.points)
      && (!r.over ==> |r.snake.body| - |f.snake.body| == (if r.points > f.points then 1 else 0))
      && f.points <= r.points <= f.points + 5 && (r.speedChanged || !f.speedChanged)
  {
    SubStepKeepsBody(f, border, place);
    var s := f.snake;
    if s.pending != [] {
      PopTakesTurn(s.dir, s.pending);
    }
  }

  /** The body half of SubStepKeeps: still distinct and connected, and one
      longer exactly when the sub-step scored. */
  lemma SubStepKeepsBody(f: Frame, border: set<Coordinates>, place: Placement)
    requires f.snake.body != [] && !f.over
    requires Distinct(f.snake.body) && Connected(f.snake.body)
    ensures var r := SubStep(f, border, place);
      && r.snake.body != [] && Distinct(r.snake.body) && Connected(r.snake.body)
      && (r.over ==> r.snake.body == f.snake.body && r.points == f.points)
      && (!r.over ==> |r.snake.body| - |f.snake.body| == (if r.points > f.points then 1 else 0))
  {
    var s := f.snake;
    var (dir, pending) := Pop(s.dir, s.pending);
    var head := Move(Head(s.body), dir);
    MoveAdjacent(Head(s.body), dir);
    if head !in s.body[..|s.body| - 1] {
      FreshHead(s.body, head);
      GrowKeeps(s.body, head);
      MoveKeeps(s.body, head);
    }
  }

  /** Eating, when the cell ahead after the turn is free and holds the food:
      plain food scores 1 and grows the body by the new head; favourite food
      scores 5, grows, and slows the snake by 3 but not below the default
      speed; speed-up food makes the snake one faster and leaves the body
      and the points alone. In every case the food moves, the head becomes
      the position, the turn is taken and the counter is kept. */
  lemma SubStepEats(f: Frame, border: set<Coordinates>, place: Placement)
    requires f.snake.body != [] && !f.over
    requires var head := Move(Head(f.snake.body), Pop(f.snake.dir, f.snake.pending).0);
      head !in border && head !in f.snake.body[..|f.snake.body| - 1] && head == f.food.pos
    ensures var s, r := f.snake, SubStep(f, border, place);
      var head := Move(Head(s.body), Pop(s.dir, s.pending).0);
      && !r.over && r.food == MoveFood(f.food, place) && r.snake.pos == head
      && (r.snake.dir, r.snake.pending) == Pop(s.dir, s.pending) && r.snake.counter == s.counter
      && (f.food.kind == Plain ==>
            r.points == f.points + 1 && r.snake.body == s.body + [head]
            && r.snake.speed == s.speed && r.speedChanged == f.speedChanged)
      && (f.food.kind == Favourite ==>
            r.points == f.points + 5 && r.snake.body == s.body + [head] && r.speedChanged
            && r.snake.speed >= DefaultSpeed && r.snake.speed >= s.speed - 3
            && (r.snake.speed == DefaultSpeed || r.snake.speed == s.speed - 3))
      && (f.food.kind == SpeedUp ==>
            r.points == f.points && r.snake.body == s.body && r.snake.speed == s.speed + 1 && r.speedChanged)
  {
  }

  /** Moving onto a free cell without food: the tail cell goes, the head
      comes, and nothing else but the turn changes. */
  lemma SubStepMoves(f: Frame, border: set<Coordinates>, place: Placement)
    requires f.snake.body != [] && !f.over
    requires var head := Move(Head(f.snake.body), Pop(f.snake.dir, f.snake.pending).0);
      head !in border && head !in f.snake.body[..|f.snake.body| - 1] && head != f.food.pos
    ensures var s, r := f.snake, SubStep(f, border, place);
      var head := Move(Head(s.body), Pop(s.dir, s.pending).0);
      && !r.over && r.food == f.food && r.points == f.points && r.speedChanged == f.speedChanged
      && r.snake.body == s.body[1..] + [head] && r.snake.pos == head && r.snake.speed == s.speed
      && (r.snake.dir, r.snake.pending) == Pop(s.dir, s.pending) && r.snake.counter == s.counter
  {
  }

  /** Crashing, when the cell ahead after the turn is on the border or on the
      body other than the head: the game ends and the sub-step returns with
      only the turn taken. Body, position, speed, counter, food, points and
      the speed-changed flag are all as they were. */
  lemma SubStepCrash(f: Frame, border: set<Coordinates>, place: Placement)
    requires f.snake.body != [] && !f.over
    requires var head := Move(Head(f.snake.body), Pop(f.snake.dir, f.snake.pending).0);
      head in border || head in f.snake.body[..|f.snake.body| - 1]
    ensures var s, r := f.snake, SubStep(f, border, place);
      && r.over && r.food == f.food && r.points == f.points && r.speedChanged == f.speedChanged
      && r.snake == s.(dir := Pop(s.dir, s.pending).0, pending := Pop(s.dir, s.pending).1)
  {
  }

  /** Favourite food slows a snake at speed 14 to 11, and one at speed 10 to
      the default 8 rather than 7. */
  lemma FavouriteClamp(f: Frame, border: set<Coordinates>, place: Placement)
    requires f.snake.body != [] && !f.over && f.food.kind == Favourite
    requires f.snake.speed == 14 || f.snake.speed == 10
    requires var head := Move(Head(f.snake.body), Pop(f.snake.dir, f.snake.pending).0);
      head !in border && head !in f.snake.body[..|f.snake.body| - 1] && head == f.food.pos
    ensures SubStep(f, border, place).snake.speed == if f.snake.speed == 14 then 11 else DefaultSpeed
  {
    SubStepEats(f, border, place);
  }

  /** A run of sub-steps keeps the same facts, and grows the body by one
      per scoring bite. */
  lemma {:induction false} SubStepsKeep(f: Frame, border: set<Coordinates>, place: Placement, k: nat)
    requires Sound(f.snake) && !f.over && f.points == 0 && !f.speedChanged
    ensures var r := SubSteps(f, border, place, k);
      && Sound(r.snake) && r.snake.counter == f.snake.counter
      && |f.snake.body| <= |r.snake.body| <= |f.snake.body| + k
      && (r.points == 0 <==> |r.snake.body| == |f.snake.body|)
      && 0 <= r.points <= 5 * k
    decreases k
  {
    if k > 0 {
      SubStepsKeep(f, border, place, k - 1);
      var p := SubSteps(f, border, place, k - 1);
      if p.over {
        assert SubSteps(f, border, place, k) == p;
      } else {
        SubStepKeeps(p, border, place);
        assert SubSteps(f, border, place, k) == SubStep(p, border, place);
      }
    }
  }

  /** Snake.Draw keeps the invariant. */
  lemma StepKeepsInvariant(s: SnakeState, food: FoodState, border: set<Coordinates>, place: Placement)
    requires Invariant(s)
    ensures Invariant(Step(s, food, border, place).snake)
  {
    var k := if |s.pending| >= 2 then 2 else 1;
    var f := Frame(s.(counter := 0), food, 0, false, false);
    SubStepsKeep(f, border, place, k);
  }

  /** Between moves a frame only counts; a move lengthens the snake exactly
      when it scores, by at most one cell per sub-step. */
  lemma StepGrowth(s: SnakeState, food: FoodState, border: set<Coordinates>, place: Placement)
    requires Invariant(s)
    ensures var r := Step(s, food, border, place);
      && (s.counter + 1 < Interval(s.speed, s.dir) ==> r == Frame(s.(counter := s.counter + 1), food, 0, false, false))
      && |s.body| <= |r.snake.body| <= |s.body| + 2
      && (r.points == 0 <==> |r.snake.body| == |s.body|) && r.points >= 0
  {
    var k := if |s.pending| >= 2 then 2 else 1;
    var f := Frame(s.(counter := 0), food, 0, false, false);
    SubStepsKeep(f, border, place, k);
  }

  /** After a move the counter starts again: at one frame before the next
      move when the speed changed and the game goes on, at zero otherwise;
      points are never negative. */
  lemma StepPrimesCounter(s: SnakeState, food: FoodState, border: set<Coordinates>, place: Placement)
    requires Invariant(s) && s.counter + 1 >= Interval(s.speed, s.dir)
    ensures var r := Step(s, food, border, place);
      && r.points >= 0 && r.snake.speed >= DefaultSpeed
      && (r.speedChanged && !r.over ==> r.snake.counter == Interval(r.snake.speed, r.snake.dir) - 1)
      && (!(r.speedChanged && !r.over) ==> r.snake.counter == 0)
  {
    var k := if |s.pending| >= 2 then 2 else 1;
    var f := Frame(s.(counter := 0), food, 0, false, false);
    SubStepsKeep(f, border, place, k);
  }

  /** NewSnake six frames on, with the food elsewhere and the cell ahead
      inside the arena: the seventh frame moves it one cell right and
      resets the counter. */
  lemma TranslationExample(food: FoodState, border: set<Coordinates>, place: Placement)
    requires food.pos != Coordinates(4, 6) && Coordinates(4, 6) !in border
    ensures var r := Step(InitialSnake().(counter := 6), food, border, place);
      && r.snake.body == [Coordinates(2, 6), Coordinates(3, 6), Coordinates(4, 6)]
      && r.snake.counter == 0 && r.snake.pos == Coordinates(4, 6)
      && !r.over && r.points == 0 && r.food == food
  {
    var s := InitialSnake().(counter := 6);
    DefaultIntervals();
    var f := Frame(s.(counter := 0), food, 0, false, false);
    assert SubSteps(f, border, place, 1) == SubStep(f, border, place);
    assert s.body[..|s.body| - 1] == [Coordinates(1, 6), Coordinates(2, 6)];
    assert s.body[1..] == [Coordinates(2, 6), Coordinates(3, 6)];
  }

  /** The snake dies when the cell ahead, after the first queued turn, is
      on the border or on its body other than the head. (Not only then: with
      two turns queued the second sub-step can crash too.) */
  lemma StepCrash(s: SnakeState, food: FoodState, border: set<Coordinates>, place: Placement)
    requires Invariant(s) && s.counter + 1 >= Interval(s.speed, s.dir)
    ensures var head := Move(Head(s.body), Pop(s.dir, s.pending).0);
      (head in border || head in s.body[..|s.body| - 1]) ==> Step(s, food, border, place).over
  {
    var f := Frame(s.(counter := 0), food, 0, false, false);
    assert SubSteps(f, border, place, 1) == SubStep(f, border, place);
    var k := if |s.pending| >= 2 then 2 else 1;
    if k == 2 {
      assert SubSteps(f, border, place, 2) == SubSteps(f, border, place, 1) || !SubSteps(f, border, place, 1).over;
    }
  }

  /** CheckSelectedColor: the seven colour choices of the menu, even numbers
      from 10 to 22, and the default colour for anything else. */
  function CheckSelectedColor(c: int): Attr {
    if c == 10 then White
    else if c == 12 then Red
    else if c == 14 then Green
    else if c == 16 then Blue
    else if c == 18 then Yellow
    else if c == 20 then Magenta
    else if c == 22 then Cyan
    else Default
  }

  /** A colour other than the default is chosen exactly for the even
      numbers 10 to 22, each its own colour; black is never chosen. */
  lemma ColorChoices(c: int, d: int)
    ensures CheckSelectedColor(c) != Default <==> (10 <= c <= 22 && c % 2 == 0)
    ensures CheckSelectedColor(c) != Black
    ensures CheckSelectedColor(c) != Default && CheckSelectedColor(c) == CheckSelectedColor(d) ==> c == d
  {
  }

  const CounterSnake: int := 10
}
