/** The snake game on top of Termloop: the snake, food, arena and side panel
    entities, the game screen with its score, the game-over screen, and the
    two passes the game loop makes over the registry (key events to every
    ticker, a frame drawn by every drawable). */
module SnakeGame {

  import opened Wrappers
  import opened Termloop
  import opened SnakeLogic
  import TermFrame

  // ---------------------------------------------------------------------
  // fmt's %d and the texts of the side panel
  // ---------------------------------------------------------------------

  function DigitChar(d: nat): char
    requires d < 10
  {
    (48 + d) as char
  }

  /** The decimal digits of n, most significant first. */
  function Decimal(n: nat): (s: seq<char>)
    ensures |s| >= 1
    decreases n
  {
    if n < 10 then [DigitChar(n)] else Decimal(n / 10) + [DigitChar(n % 10)]
  }

  /** Decimal writes nothing but digits. */
  lemma {:induction false} DecimalDigits(n: nat)
    ensures forall i :: 0 <= i < |Decimal(n)| ==> '0' <= Decimal(n)[i] <= '9'
    decreases n
  {
    if n >= 10 {
      DecimalDigits(n / 10);
    }
  }

  /** What a string of digits reads as. */
  function DigitsValue(s: seq<char>): int {
    if s == [] then 0 else DigitsValue(s[..|s| - 1]) * 10 + (s[|s| - 1] as int - 48)
  }

  /** fmt.Sprintf("%d", n). */
  function Itoa(n: int): seq<char> {
    if n < 0 then ['-'] + Decimal(-n) else Decimal(n)
  }

  /** Reading a %d text back. */
  function ReadInt(s: seq<char>): int {
    if s != [] && s[0] == '-' then -DigitsValue(s[1..]) else DigitsValue(s)
  }

  /** Decimal reads back as n, without a leading zero. */
  lemma {:induction false} DecimalValue(n: nat)
    ensures DigitsValue(Decimal(n)) == n
    ensures Decimal(n)[0] != '0' || n == 0
    decreases n
  {
    if n >= 10 {
      DecimalValue(n / 10);
      var d := Decimal(n / 10);
      var s := Decimal(n);
      assert s == d + [DigitChar(n % 10)];
      assert s[..|s| - 1] == d;
      assert s[0] == d[0];
    }
  }

  /** Every number printed with %d reads back as itself. */
  lemma ItoaRoundTrip(n: int)
    ensures ReadInt(Itoa(n)) == n
  {
    if n < 0 {
      DecimalValue(-n);
      assert Itoa(n)[1..] == Decimal(-n);
    } else {
      DecimalValue(n);
      DecimalDigits(n);
    }
  }

  const Difficulty: seq<char> := "Normal"

  /** "Score: %d". */
  function ScoreLine(score: int): seq<char> {
    "Score: " + Itoa(score)
  }

  /** The score text after a run of sub-steps: rewritten once any points were scored. */
  function ScoreShown(text0: seq<char>, score: int, points: int): seq<char> {
    if points != 0 then ScoreLine(score) else text0
  }

  /** "Speed: %d". */
  function SpeedLine(speed: int): seq<char> {
    "Speed: " + Itoa(speed)
  }

  const DifficultyLine: seq<char> := "Difficulty: " + Difficulty

  /** The score line shows its label and then, readable, the score. */
  lemma ScoreLineShows(score: int)
    ensures ScoreLine(score)[..7] == "Score: "
    ensures ReadInt(ScoreLine(score)[7..]) == score
  {
    assert ScoreLine(score)[7..] == Itoa(score);
    ItoaRoundTrip(score);
  }

  /** The speed line likewise. */
  lemma SpeedLineShows(speed: int)
    ensures SpeedLine(speed)[..7] == "Speed: "
    ensures ReadInt(SpeedLine(speed)[7..]) == speed
  {
    assert SpeedLine(speed)[7..] == Itoa(speed);
    ItoaRoundTrip(speed);
  }

  const Instructions: seq<seq<char>> := [
    "Instructions:",
    "Use \U{2190} \U{2192} \U{2191} \U{2193} to move the snake around",
    "Pick up the food to grow bigger",
    "\U{25A0}: 1 point/growth",
    "R: 5 points (removes some speed!)",
    "S: 1 point (increased speed!!)"
  ]

  /** The cell Snake.Draw paints for each body segment. */
  const SnakeCell: Cell := Cell(Default, CheckSelectedColor(CounterSnake), '\0')

  /** The buffer after the first k body segments are painted. */
  function PaintBody(cells: Cells, body: seq<Coordinates>, k: nat): Cells
    requires k <= |body|
  {
    if k == 0 then cells else Put(PaintBody(cells, body, k - 1), body[k - 1].x, body[k - 1].y, SnakeCell)
  }

  /** A cell shows the snake exactly when a segment is there; the rest of
      the buffer is as it was. */
  lemma {:induction false} BodyCells(cells: Cells, body: seq<Coordinates>, k: nat, x: int, y: int)
    requires k <= |body|
    ensures Lookup(PaintBody(cells, body, k), x, y) ==
      if Coordinates(x, y) in body[..k] then Some(SnakeCell) else Lookup(cells, x, y)
    decreases k
  {
    if k > 0 {
      BodyCells(cells, body, k - 1, x, y);
      PutLookup(PaintBody(cells, body, k - 1), body[k - 1].x, body[k - 1].y, SnakeCell, x, y);
      assert body[..k] == body[..k - 1] + [body[k - 1]];
    }
  }

  // ---------------------------------------------------------------------
  // Entities
  // ---------------------------------------------------------------------

  /** What the registry holds: the game's entities by kind. */
  datatype Ent =
    | SnakeE(snake: Snake)
    | FoodE(food: Food)
    | ArenaE(arena: Arena)
    | TextE(text: Text)
    | RectE(rect: Rectangle)
    | CanvasE(entity: Entity)
    | GameoverE(screen: Gameoverscreen)

  function TextEnts(ts: seq<Text>): (es: seq<Ent>)
    ensures |es| == |ts| && forall i :: 0 <= i < |ts| ==> es[i] == TextE(ts[i])
  {
    seq(|ts|, i requires 0 <= i < |ts| => TextE(ts[i]))
  }

  predicate NoGameoverScreen(es: seq<Ent>) {
    forall i :: 0 <= i < |es| ==> !es[i].GameoverE?
  }

  /** A key event makes the game restart through this entity: only a
      game-over screen reacts to 'r'. */
  predicate RestartsOn(e: Ent, ev: Event) {
    e.GameoverE? && ev.ch == 'r'
  }

  /** Some entity among es restarts the game on ev. */
  predicate AnyRestart(es: seq<Ent>, ev: Event) {
    es != [] && (AnyRestart(es[..|es| - 1], ev) || RestartsOn(es[|es| - 1], ev))
  }

  lemma {:induction false} AnyRestartExists(es: seq<Ent>, ev: Event)
    ensures AnyRestart(es, ev) <==> exists e :: e in es && RestartsOn(e, ev)
  {
    if es != [] {
      var init := es[..|es| - 1];
      AnyRestartExists(init, ev);
      assert es == init + [es[|es| - 1]];
      if exists e :: e in es && RestartsOn(e, ev) {
        var e :| e in es && RestartsOn(e, ev);
        assert e in init || e == es[|es| - 1];
      }
    }
  }

  /** The food; where MoveFood puts it is the placement parameter. */
  class Food {
    var pos: Coordinates
    var kind: FoodKind
    var moves: nat
    const place: Placement

    function State(): FoodState
      reads this
    {
      FoodState(pos, kind, moves)
    }

    /** NewFood: the first placement. */
    constructor (place: Placement)
      ensures State() == FoodState(place(0).0, place(0).1, 0) && this.place == place
    {
      pos, kind, moves := place(0).0, place(0).1, 0;
      this.place := place;
    }

    method MoveFood()
      modifies this
      ensures State() == SnakeLogic.MoveFood(old(State()), place)
    {
      moves := moves + 1;
      pos, kind := place(moves).0, place(moves).1;
    }
  }

  /** The arena; its border cells are a parameter. */
  class Arena {
    const border: set<Coordinates>

    constructor (border: set<Coordinates>)
      ensures this.border == border
    {
      this.border := border;
    }
  }

  class Sidepanel {
    const background: Rectangle
    const instructions: seq<seq<char>>
    const scoreText: Text
    const speedText: Text
    const difficultyText: Text

    /** NewSidepanel, beside the 70-wide arena. */
    constructor (score: int, speed: int)
      ensures instructions == Instructions
      ensures fresh(background) && background.x == 71 && background.y == 0
      ensures background.w == 45 && background.h == 25 && background.bg == White
      ensures fresh(scoreText) && scoreText.x == 72 && scoreText.y == 1 && scoreText.text == ScoreLine(score)
      ensures fresh(speedText) && speedText.x == 72 && speedText.y == 3 && speedText.text == SpeedLine(speed)
      ensures fresh(difficultyText) && difficultyText.x == 72 && difficultyText.y == 5 && difficultyText.text == DifficultyLine
      ensures scoreText.fg == speedText.fg == difficultyText.fg == Black
      ensures scoreText.bg == speedText.bg == difficultyText.bg == White
      ensures scoreText != speedText
    {
      instructions := Instructions;
      background := new Rectangle(71, 0, 45, 25, White);
      scoreText := new Text(72, 1, ScoreLine(score), Black, White);
      speedText := new Text(72, 3, SpeedLine(speed), Black, White);
      difficultyText := new Text(72, 5, DifficultyLine, Black, White);
    }
  }

  /** The snake: the embedded entity's position, the direction, the body
      from tail to head, the speed, the frame counter and the turn queue. */
  class Snake {
    var x: int
    var y: int
    var dir: Direction
    var body: seq<Coordinates>
    var speed: int
    var counter: int
    var pending: seq<Direction>

    function State(): SnakeState
      reads this
    {
      SnakeState(Coordinates(x, y), dir, body, speed, counter, pending)
    }

    predicate Valid()
      reads this
    {
      Invariant(State())
    }

    /** NewSnake. */
    constructor ()
      ensures State() == InitialSnake() && Valid()
    {
      x, y := 5, 5;
      dir := Right;
      counter := 0;
      speed := DefaultSpeed;
      body := [Coordinates(1, 6), Coordinates(2, 6), Coordinates(3, 6)];
      pending := [];
      InitialInvariant();
    }

    /** Whether the head sits on another segment; an empty body has none. */
    method Contains() returns (hit: bool)
      ensures hit <==> body != [] && Head(body) in body[..|body| - 1]
    {
      var i := 0;
      while i < |body| - 1
        invariant 0 <= i && (body != [] ==> i <= |body| - 1)
        invariant body != [] ==> Head(body) !in body[..i]
      {
        if Head(body) == body[i] {
          return true;
        }
        i := i + 1;
      }
      if body != [] {
        assert body[..i] == body[..|body| - 1];
      }
      return false;
    }

    method SnakeCollision() returns (hit: bool)
      ensures hit <==> body != [] && Head(body) in body[..|body| - 1]
    {
      hit := Contains();
    }

    method BorderCollision(gs: Gamescreen) returns (hit: bool)
      requires body != []
      ensures hit <==> Head(body) in gs.arena.border
    {
      hit := Head(body) in gs.arena.border;
    }

    method FoodCollision(gs: Gamescreen) returns (hit: bool)
      requires body != []
      ensures hit <==> Head(body) == gs.food.pos
    {
      hit := Head(body) == gs.food.pos;
    }

    /** Snake.Tick: queue the arrow's direction as Admit says. */
    method Tick(ev: Event)
      modifies this
      ensures State() == old(State()).(pending := Admit(old(pending), dir, ev.key))
      ensures old(Valid()) ==> Valid()
    {
      if Valid() {
        AdmitKeepsQueue(pending, dir, ev.key);
      }
      var next: Direction;
      match ev.key {
        case ArrowRight => next := Right;
        case ArrowLeft => next := Left;
        case ArrowUp => next := Up;
        case ArrowDown => next := Down;
        case _ => return;
      }
      var effective := dir;
      if |pending| > 0 {
        effective := pending[|pending| - 1];
      }
      if IsOpposite(effective, next) {
        return;
      }
      if |pending| > 0 && pending[|pending| - 1] == next {
        return;
      }
      if |pending| < MaxPending {
        pending := pending + [next];
      }
    }

    /** Whether c is on the body other than the head: the loop of Draw. */
    method HitsBody(c: Coordinates) returns (hit: bool)
      requires body != []
      ensures hit <==> c in body[..|body| - 1]
    {
      var i := 0;
      while i < |body| - 1
        invariant 0 <= i <= |body| - 1
        invariant c !in body[..i]
      {
        if c == body[i] {
          return true;
        }
        i := i + 1;
      }
      assert body[..i] == body[..|body| - 1];
      return false;
    }

    /** One sub-step of Draw: take a queued turn, then end the game at the
        border or on the body, or eat, or move. */
    method Advance(gs: Gamescreen, speedChanged: bool, ghost f: Frame) returns (changed: bool, over: bool)
      requires gs.Valid() && body != []
      requires f.snake == State() && f.food == gs.food.State() && f.speedChanged == speedChanged && !f.over
      modifies this, gs, gs.food, gs.panel.scoreText, gs.level.registry
      ensures var r := SubStep(f, gs.arena.border, gs.food.place);
        && State() == r.snake && gs.food.State() == r.food
        && gs.score == old(gs.score) + (r.points - f.points)
        && changed == r.speedChanged && over == r.over
        && gs.panel.scoreText.text == (if r.points != f.points then ScoreLine(gs.score) else old(gs.panel.scoreText.text))
        && (if over then GameoverAdded(old(gs.level.registry.entities), gs.level.registry.entities, gs.score)
            else gs.level.registry.entities == old(gs.level.registry.entities))
      ensures gs.snake == old(gs.snake) && gs.food == old(gs.food) && gs.fps == old(gs.fps)
    {
      ghost var r := SubStep(f, gs.arena.border, gs.food.place);
      ghost var turn := Pop(f.snake.dir, f.snake.pending);
      TakeTurn();
      ghost var turned := f.snake.(dir := turn.0, pending := turn.1);
      var nHead := Move(body[|body| - 1], dir);
      var crash := nHead in gs.arena.border;
      if !crash {
        crash := HitsBody(nHead);
      }
      if crash {
        assert r == f.(snake := turned, over := true);
        var gos := GameoverAsWritten(gs);
        return speedChanged, true;
      }
      changed := Eat(gs, nHead, speedChanged, f, turned);
      over := false;
    }

    /** The start of a sub-step: the first queued turn, unless it reverses
        the snake, becomes the direction, and leaves the queue. */
    method TakeTurn()
      modifies this
      ensures var turn := Pop(old(dir), old(pending));
        State() == old(State()).(dir := turn.0, pending := turn.1)
    {
      if |pending| > 0 {
        var nextDir := pending[0];
        if !IsOpposite(nextDir, dir) {
          dir := nextDir;
        }
        pending := pending[1..];
      }
    }

    /** The rest of a sub-step once the cell ahead is free: eat the food
        there, or move. */
    method Eat(gs: Gamescreen, nHead: Coordinates, speedChanged: bool, ghost f: Frame, ghost turned: SnakeState)
      returns (changed: bool)
      requires gs.Valid() && body != [] && f.snake.body != [] && !f.over
      requires f.food == gs.food.State() && f.speedChanged == speedChanged
      requires turned == f.snake.(dir := Pop(f.snake.dir, f.snake.pending).0, pending := Pop(f.snake.dir, f.snake.pending).1)
      requires State() == turned && nHead == Move(Head(body), dir)
      requires nHead !in gs.arena.border && nHead !in body[..|body| - 1]
      modifies this, gs, gs.food, gs.panel.scoreText
      ensures var r := SubStep(f, gs.arena.border, gs.food.place);
        && State() == r.snake && gs.food.State() == r.food
        && gs.score == old(gs.score) + (r.points - f.points)
        && changed == r.speedChanged && !r.over
        && gs.panel.scoreText.text == (if r.points != f.points then ScoreLine(gs.score) else old(gs.panel.scoreText.text))
      ensures gs.snake == old(gs.snake) && gs.food == old(gs.food) && gs.fps == old(gs.fps)
    {
      ghost var r := SubStep(f, gs.arena.border, gs.food.place);
      changed := speedChanged;
      if nHead == gs.food.pos {
        ghost var food := SnakeLogic.MoveFood(f.food, gs.food.place);
        match gs.food.kind {
          case Favourite =>
            ghost var newSpeed := if speed - 3 <= DefaultSpeed then DefaultSpeed else speed - 3;
            assert r == Frame(turned.(body := body + [nHead], speed := newSpeed, pos := nHead), food, f.points + 5, true, false);
            if speed - 3 <= DefaultSpeed {
              speed := DefaultSpeed;
              UpdateScore(gs, 5);
            } else {
              speed := speed - 3;
              UpdateScore(gs, 5);
            }
            changed := true;
            body := body + [nHead];
          case SpeedUp =>
            assert r == Frame(turned.(speed := speed + 1, pos := nHead), food, f.points, true, false);
            speed := speed + 1;
            changed := true;
          case Plain =>
            assert r == Frame(turned.(body := body + [nHead], pos := nHead), food, f.points + 1, f.speedChanged, false);
            UpdateScore(gs, 1);
            body := body + [nHead];
        }
        gs.food.MoveFood();
      } else {
        assert r == f.(snake := turned.(body := body[1..] + [nHead], pos := nHead));
        body := body[1..] + [nHead];
      }
      x, y := nHead.x, nHead.y;
    }

    /** Snake.Draw: count the frame, move when the interval is reached (two
        sub-steps with two or more turns queued), and paint the body unless
        the game ended. */
    method Draw(gs: Gamescreen, screen: Screen)
      requires Valid() && gs.Valid() && screen.Valid()
      modifies this, gs, gs.food, gs.panel.scoreText, gs.panel.speedText, gs.level.registry, screen
      ensures var r := Step(old(State()), old(gs.food.State()), gs.arena.border, gs.food.place);
        && State() == r.snake && gs.food.State() == r.food
        && gs.score == old(gs.score) + r.points
        && gs.panel.scoreText.text == (if r.points != 0 then ScoreLine(gs.score) else old(gs.panel.scoreText.text))
        && gs.panel.speedText.text == (if r.speedChanged && !r.over then SpeedLine(gs.snake.speed) else old(gs.panel.speedText.text))
        && (if r.over then GameoverAdded(old(gs.level.registry.entities), gs.level.registry.entities, gs.score) && screen.cells == old(screen.cells)
            else gs.level.registry.entities == old(gs.level.registry.entities) && screen.cells == PaintBody(old(screen.cells), body, |body|))
      ensures Valid() && screen.Valid()
      ensures gs.snake == old(gs.snake) && gs.food == old(gs.food) && gs.fps == old(gs.fps)
    {
      ghost var s0 := State();
      ghost var food0 := gs.food.State();
      StepKeepsInvariant(s0, food0, gs.arena.border, gs.food.place);
      counter := counter + 1;
      var interval := Interval(speed, dir);
      if counter >= interval {
        counter := 0;
        var substeps := if |pending| >= 2 then 2 else 1;
        ghost var f0 := Frame(State(), gs.food.State(), 0, false, false);
        var speedChanged, over := SubStepLoop(gs, substeps, f0);
        if over {
          return;
        }
        if speedChanged {
          UpdateFPS(gs);
          counter := Interval(speed, dir) - 1;
        }
      }
      PaintSelf(screen);
    }

    /** One pass of the sub-step loop of Draw, stated against the text the loop started with. */
    method SubStepOnce(gs: Gamescreen, speedChanged: bool, ghost p: Frame, ghost text0: seq<char>, ghost score0: int)
      returns (changed: bool, over: bool)
      requires gs.Valid() && p.snake == State() && p.food == gs.food.State()
      requires p.speedChanged == speedChanged && !p.over && p.snake.body != []
      requires p.points >= 0 && gs.score == score0 + p.points
      requires gs.panel.scoreText.text == ScoreShown(text0, gs.score, p.points)
      modifies this, gs, gs.food, gs.panel.scoreText, gs.level.registry
      ensures var q := SubStep(p, gs.arena.border, gs.food.place);
        && State() == q.snake && gs.food.State() == q.food
        && gs.score == score0 + q.points && q.points >= 0
        && changed == q.speedChanged && over == q.over
        && gs.panel.scoreText.text == ScoreShown(text0, gs.score, q.points)
        && (if over then GameoverAdded(old(gs.level.registry.entities), gs.level.registry.entities, gs.score)
            else gs.level.registry.entities == old(gs.level.registry.entities))
      ensures gs.snake == old(gs.snake) && gs.food == old(gs.food) && gs.fps == old(gs.fps)
    {
      changed, over := Advance(gs, speedChanged, p);
      SubStepPoints(p, gs.arena.border, gs.food.place);
    }

    /** The sub-step loop of Draw: k sub-steps, the loop left at game over. */
    method SubStepLoop(gs: Gamescreen, k: nat, ghost f0: Frame) returns (speedChanged: bool, over: bool)
      requires gs.Valid() && f0.snake == State() && f0.food == gs.food.State()
      requires f0.points == 0 && !f0.speedChanged && !f0.over
      requires f0.snake.body != []
      modifies this, gs, gs.food, gs.panel.scoreText, gs.level.registry
      ensures var r := SubSteps(f0, gs.arena.border, gs.food.place, k);
        && State() == r.snake && gs.food.State() == r.food
        && gs.score == old(gs.score) + r.points && speedChanged == r.speedChanged && over == r.over
        && gs.panel.scoreText.text == ScoreShown(old(gs.panel.scoreText.text), gs.score, r.points)
        && (if over then GameoverAdded(old(gs.level.registry.entities), gs.level.registry.entities, gs.score)
            else gs.level.registry.entities == old(gs.level.registry.entities))
      ensures gs.snake == old(gs.snake) && gs.food == old(gs.food) && gs.fps == old(gs.fps)
    {
      speedChanged := false;
      var step := 0;
      ghost var p := f0;
      ghost var text0, score0 := gs.panel.scoreText.text, gs.score;
      while step < k
        invariant 0 <= step <= k && p == SubSteps(f0, gs.arena.border, gs.food.place, step)
        invariant !p.over && State() == p.snake && gs.food.State() == p.food
        invariant gs.score == score0 + p.points && speedChanged == p.speedChanged && p.points >= 0
        invariant gs.panel.scoreText.text == ScoreShown(text0, gs.score, p.points)
        invariant gs.level.registry.entities == old(gs.level.registry.entities)
        invariant gs.snake == old(gs.snake) && gs.food == old(gs.food) && gs.fps == old(gs.fps)
      {
        speedChanged, over := SubStepOnce(gs, speedChanged, p, text0, score0);
        p := SubStep(p, gs.arena.border, gs.food.place);
        if over {
          SubStepsStop(f0, gs.arena.border, gs.food.place, step + 1, k);
          return;
        }
        step := step + 1;
      }
      over := false;
    }

    /** The rendering loop of Draw: one cell per body segment. */
    method PaintSelf(screen: Screen)
      requires screen.Valid()
      modifies screen
      ensures screen.Valid() && screen.cells == PaintBody(old(screen.cells), body, |body|)
    {
      var i := 0;
      while i < |body|
        invariant 0 <= i <= |body|
        invariant screen.Valid() && screen.cells == PaintBody(old(screen.cells), body, i)
      {
        screen.RenderCell(body[i].x, body[i].y, Some(SnakeCell));
        i := i + 1;
      }
    }
  }

  /** The objects NewGamescreen creates before it fills the level: the
      snake, the arena, the food and the side panel. */
  method NewParts(border: set<Coordinates>, place: Placement) returns (snake: Snake, arena: Arena, food: Food, panel: Sidepanel)
    ensures fresh(snake) && snake.State() == InitialSnake() && snake.Valid()
    ensures fresh(arena) && arena.border == border
    ensures fresh(food) && food.State() == FoodState(place(0).0, place(0).1, 0) && food.place == place
    ensures fresh(panel) && fresh(panel.scoreText) && fresh(panel.speedText)
    ensures panel.scoreText.text == ScoreLine(0) && panel.speedText.text == SpeedLine(DefaultSpeed)
    ensures panel.difficultyText.text == DifficultyLine && panel.instructions == Instructions
    ensures panel.scoreText != panel.speedText
  {
    snake := new Snake();
    arena := new Arena(border);
    food := new Food(place);
    panel := new Sidepanel(0, DefaultSpeed);
  }

  /** The game screen: its level, frame rate, score and entities, the game
      it runs in, and the text of the game-over logo file (empty when the
      file cannot be read). */
  class Gamescreen {
    const game: Game
    const level: Level<Ent>
    var fps: int
    var score: int
    var snake: Snake
    var food: Food
    const arena: Arena
    const panel: Sidepanel
    ghost var instructionTexts: seq<Text>
    const logoFile: seq<char>

    predicate Valid() {
      panel.scoreText != panel.speedText
    }

    /** The entities NewGamescreen adds, in order. */
    ghost function Entities(): seq<Ent>
      reads this
    {
      Parts() + TextEnts(instructionTexts)
    }

    /** The entities NewGamescreen adds before the instructions. */
    function Parts(): seq<Ent>
      reads this
    {
      [FoodE(food), RectE(panel.background), TextE(panel.scoreText), TextE(panel.speedText),
       TextE(panel.difficultyText), SnakeE(snake), ArenaE(arena)]
    }

    /** NewGamescreen. */
    constructor (game: Game, registry: Registry<Ent>, border: set<Coordinates>, place: Placement, logoFile: seq<char>)
      modifies registry, game
      ensures Valid() && this.game == game && fresh(level) && level.registry == registry
      ensures level.bg == Cell(Default, Black, '\0')
      ensures IsRestarted(this, place) && fresh(snake) && fresh(food) && game.quit == old(game.quit)
      ensures arena.border == border && this.logoFile == logoFile
      ensures panel.difficultyText.text == DifficultyLine && panel.instructions == Instructions
      ensures |instructionTexts| == |Instructions|
      ensures forall i :: 0 <= i < |instructionTexts| ==>
        && instructionTexts[i].x == 72 && instructionTexts[i].y == 9 + 2 * i
        && instructionTexts[i].text == Instructions[i]
        && instructionTexts[i].fg == Black && instructionTexts[i].bg == White
      ensures level.entities == Entities()
      ensures registry.entities == old(registry.entities) + Entities()
    {
      this.game := game;
      level := new Level(Cell(Default, Black, '\0'), registry);
      score := 0;
      fps := 0;
      var sn, ar, fo, pa := NewParts(border, place);
      snake, arena, food, panel := sn, ar, fo, pa;
      this.logoFile := logoFile;
      instructionTexts := [];
      new;
      SetDifficultyFPS(this);
      var texts := AddEntities();
      instructionTexts := texts;
      game.SetFps(fps);
    }

    /** The AddEntity calls of NewGamescreen: the food, the side panel's
        background and texts, the snake, the arena, then the instructions. */
    method AddEntities() returns (texts: seq<Text>)
      modifies level, level.registry
      ensures |texts| == |panel.instructions|
      ensures forall i :: 0 <= i < |texts| ==>
        && fresh(texts[i]) && texts[i].x == 72 && texts[i].y == 9 + 2 * i
        && texts[i].text == panel.instructions[i] && texts[i].fg == Black && texts[i].bg == White
      ensures var es := Parts() + TextEnts(texts);
        level.entities == old(level.entities) + es && level.registry.entities == old(level.registry.entities) + es
    {
      AddEach(level, Parts());
      texts := AddInstructions(level, panel.instructions);
    }
  }

  /** The loop of NewGamescreen over the instructions: one Text every
      second row from row 9, at column 72, black on white. */
  method AddInstructions(level: Level<Ent>, lines: seq<seq<char>>) returns (texts: seq<Text>)
    modifies level, level.registry
    ensures |texts| == |lines|
    ensures forall i :: 0 <= i < |texts| ==>
      && fresh(texts[i]) && texts[i].x == 72 && texts[i].y == 9 + 2 * i
      && texts[i].text == lines[i] && texts[i].fg == Black && texts[i].bg == White
    ensures level.entities == old(level.entities) + TextEnts(texts)
    ensures level.registry.entities == old(level.registry.entities) + TextEnts(texts)
  {
    texts := [];
    var y := 7;
    var i := 0;
    while i < |lines|
      invariant 0 <= i <= |lines| && |texts| == i && y == 7 + 2 * i
      invariant forall j :: 0 <= j < i ==>
        && fresh(texts[j]) && texts[j].x == 72 && texts[j].y == 9 + 2 * j
        && texts[j].text == lines[j] && texts[j].fg == Black && texts[j].bg == White
      invariant level.entities == old(level.entities) + TextEnts(texts)
      invariant level.registry.entities == old(level.registry.entities) + TextEnts(texts)
    {
      y := y + 2;
      var t := new Text(72, y, lines[i], Black, White);
      level.AddEntity(TextE(t));
      assert TextEnts(texts + [t]) == TextEnts(texts) + [TextE(t)];
      texts := texts + [t];
      i := i + 1;
    }
  }

  /** Level.AddEntity for each of es in turn. */
  method AddEach(level: Level<Ent>, es: seq<Ent>)
    modifies level, level.registry
    ensures level.entities == old(level.entities) + es
    ensures level.registry.entities == old(level.registry.entities) + es
  {
    var i := 0;
    while i < |es|
      invariant 0 <= i <= |es|
      invariant level.entities == old(level.entities) + es[..i]
      invariant level.registry.entities == old(level.registry.entities) + es[..i]
    {
      level.AddEntity(es[i]);
      assert es[..i + 1] == es[..i] + [es[i]];
      i := i + 1;
    }
    assert es[..i] == es;
  }

  /** UpdateScore: add the points and show the new score. */
  method UpdateScore(gs: Gamescreen, amount: int)
    modifies gs, gs.panel.scoreText
    ensures gs.score == old(gs.score) + amount && gs.panel.scoreText.text == ScoreLine(gs.score)
    ensures gs.snake == old(gs.snake) && gs.food == old(gs.food) && gs.fps == old(gs.fps)
  {
    gs.score := gs.score + amount;
    gs.panel.scoreText.SetText(ScoreLine(gs.score));
  }

  /** UpdateFPS: show the current snake's speed. */
  method UpdateFPS(gs: Gamescreen)
    modifies gs.panel.speedText
    ensures gs.panel.speedText.text == SpeedLine(gs.snake.speed)
  {
    gs.panel.speedText.SetText(SpeedLine(gs.snake.speed));
  }

  /** SetDiffiultyFPS: the default frame rate and snake speed. */
  method SetDifficultyFPS(gs: Gamescreen)
    modifies gs, gs.snake
    ensures gs.fps == DefaultFps && gs.snake == old(gs.snake)
    ensures gs.snake.State() == old(gs.snake.State()).(speed := DefaultSpeed)
    ensures gs.score == old(gs.score) && gs.food == old(gs.food)
  {
    gs.fps := DefaultFps;
    gs.snake.speed := DefaultSpeed;
  }

  /** The parts of the game screen a restart sets, read off its objects. */
  datatype ScreenView = ScreenView(
    score: int, fps: int, snake: SnakeState, food: FoodState, place: Placement,
    scoreText: seq<char>, speedText: seq<char>)

  ghost function View(gs: Gamescreen): ScreenView
    reads gs, gs.snake, gs.food, gs.panel.scoreText, gs.panel.speedText
  {
    ScreenView(gs.score, gs.fps, gs.snake.State(), gs.food.State(), gs.food.place,
               gs.panel.scoreText.text, gs.panel.speedText.text)
  }

  /** The state RestartGame leaves: no points, the default rate and speed
      shown, a new snake and new food. */
  ghost predicate RestartedView(v: ScreenView, place: Placement) {
    && v.score == 0 && v.fps == DefaultFps
    && v.snake == InitialSnake() && Invariant(v.snake)
    && v.food == FoodState(place(0).0, place(0).1, 0) && v.place == place
    && v.scoreText == ScoreLine(v.score) && v.speedText == SpeedLine(v.snake.speed)
  }

  ghost predicate IsRestarted(gs: Gamescreen, place: Placement)
    reads gs, gs.snake, gs.food, gs.panel.scoreText, gs.panel.speedText, gs.game
  {
    RestartedView(View(gs), place) && gs.game.fps == DefaultFps
  }

  /** Level.RemoveEntity's effect on the registry. */
  function Unlisted(level: seq<Ent>, reg: seq<Ent>, target: Ent): seq<Ent> {
    if target in level then RemoveFirst(reg, target) else reg
  }

  /** The level's list after RestartGame's two RemoveEntity calls. */
  function LevelWithout(lv: seq<Ent>, s: Ent, f: Ent): seq<Ent> {
    RemoveFirst(RemoveFirst(lv, s), f)
  }

  /** The registry after the same two calls: each entry goes only if the
      level held it. */
  function RegistryWithout(lv: seq<Ent>, rg: seq<Ent>, s: Ent, f: Ent): seq<Ent> {
    Unlisted(RemoveFirst(lv, s), Unlisted(lv, rg, s), f)
  }

  /** The two RemoveEntity calls RestartGame starts with. */
  method RemoveSnakeAndFood(gs: Gamescreen)
    modifies gs.level, gs.level.registry
    ensures gs.level.entities == LevelWithout(old(gs.level.entities), SnakeE(gs.snake), FoodE(gs.food))
    ensures gs.level.registry.entities ==
      RegistryWithout(old(gs.level.entities), old(gs.level.registry.entities), SnakeE(gs.snake), FoodE(gs.food))
  {
    gs.level.RemoveEntity(SnakeE(gs.snake));
    gs.level.RemoveEntity(FoodE(gs.food));
  }

  /** RestartGame: swap in a new snake and new food (placed by the given
      placement) and reset the score, frame rate and texts. */
  method RestartGame(gs: Gamescreen, place: Placement)
    requires gs.Valid()
    modifies gs, gs.level, gs.level.registry, gs.panel.scoreText, gs.panel.speedText, gs.game
    ensures IsRestarted(gs, place) && fresh(gs.snake) && fresh(gs.food)
    ensures gs.game.quit == old(gs.game.quit)
    ensures gs.level.entities ==
      LevelWithout(old(gs.level.entities), SnakeE(old(gs.snake)), FoodE(old(gs.food))) + [SnakeE(gs.snake), FoodE(gs.food)]
    ensures gs.level.registry.entities ==
      RegistryWithout(old(gs.level.entities), old(gs.level.registry.entities), SnakeE(old(gs.snake)), FoodE(old(gs.food)))
      + [SnakeE(gs.snake), FoodE(gs.food)]
  {
    RemoveSnakeAndFood(gs);
    ResetParts(gs, place);
    AddEach(gs.level, [SnakeE(gs.snake), FoodE(gs.food)]);
    gs.game.SetFps(gs.fps);
  }

  /** The middle of RestartGame: a new snake and new food, the default rate
      and speed, no points, and the texts showing them. */
  method ResetParts(gs: Gamescreen, place: Placement)
    requires gs.Valid()
    modifies gs, gs.panel.scoreText, gs.panel.speedText
    ensures RestartedView(View(gs), place) && fresh(gs.snake) && fresh(gs.food)
  {
    gs.snake := new Snake();
    gs.food := new Food(place);
    SetDifficultyFPS(gs);
    gs.score := 0;
    gs.panel.scoreText.SetText(ScoreLine(gs.score));
    gs.panel.speedText.SetText(SpeedLine(gs.snake.speed));
  }

  /** The game-over screen: its level (sharing the registry) and what it
      shows. */
  class Gameoverscreen {
    const level: Level<Ent>
    const logo: Entity
    const finalstats: seq<Text>
    const optionsBackground: Rectangle
    const optionsText: seq<Text>

    /** The entities Gameover adds, in order. */
    function Entities(): seq<Ent> {
      TextEnts(finalstats) + [CanvasE(logo), RectE(optionsBackground)] + TextEnts(optionsText)
    }

    /** The screen Gameover builds from the score, the frame rate and the
        logo file's text. */
    constructor (registry: Registry<Ent>, score: int, fps: int, logoFile: seq<char>)
      ensures fresh(level) && level.registry == registry && level.entities == [] && level.bg == Cell(Default, Black, '\0')
      ensures fresh(logo) && logo.x == 10 && logo.y == 3 && logo.canvas == CanvasFromString(logoFile)
      ensures |finalstats| == 3 && |optionsText| == 2
      ensures finalstats[0].text == ScoreLine(score) && finalstats[1].text == "Speed: " + Itoa(fps)
      ensures finalstats[2].text == DifficultyLine
      ensures forall i :: 0 <= i < 3 ==>
        finalstats[i].x == 10 && finalstats[i].y == 13 + 2 * i && finalstats[i].fg == White && finalstats[i].bg == Black
      ensures optionsBackground.x == 45 && optionsBackground.y == 12 && optionsBackground.w == 45
      ensures optionsBackground.h == 7 && optionsBackground.bg == White
      ensures optionsText[0].text == "Press \"r\" to restart!" && optionsText[1].text == "Press \"Delete\" to quit!"
      ensures forall i :: 0 <= i < 2 ==>
        optionsText[i].x == 47 && optionsText[i].y == 13 + 2 * i && optionsText[i].fg == Black && optionsText[i].bg == White
    {
      level := new Level(Cell(Default, Black, '\0'), registry);
      logo := new Entity.FromCanvas(10, 3, CanvasFromString(logoFile));
      var s0 := new Text(10, 13, ScoreLine(score), White, Black);
      var s1 := new Text(10, 15, "Speed: " + Itoa(fps), White, Black);
      var s2 := new Text(10, 17, DifficultyLine, White, Black);
      finalstats := [s0, s1, s2];
      optionsBackground := new Rectangle(45, 12, 45, 7, White);
      var o0 := new Text(47, 13, "Press \"r\" to restart!", Black, White);
      var o1 := new Text(47, 15, "Press \"Delete\" to quit!", Black, White);
      optionsText := [o0, o1];
    }

    /** Gameoverscreen.Tick: 'r' restarts; Delete closes the terminal,
        which is outside this model. */
    method Tick(gs: Gamescreen, ev: Event, place: Placement)
      requires gs.Valid()
      modifies gs, gs.level, gs.level.registry, gs.panel.scoreText, gs.panel.speedText, gs.game
      ensures ev.ch == 'r' ==> IsRestarted(gs, place) && fresh(gs.snake) && fresh(gs.food)
      ensures ev.ch != 'r' ==> unchanged(gs, gs.level, gs.level.registry, gs.panel.scoreText, gs.panel.speedText, gs.game)
      ensures gs.game.quit == old(gs.game.quit)
    {
      if ev.ch == 'r' {
        RestartGame(gs, place);
      }
    }
  }

  /** The registry after a game over as the source has it: what was there,
      then the game-over screen's score, speed and difficulty texts, its
      logo, the options' background and their two texts, the score text
      showing the score and the first option the restart key; the screen
      itself is not among them. */
  predicate GameoverAdded(before: seq<Ent>, after: seq<Ent>, score: int)
    reads set e | e in after && e.TextE? :: e.text
  {
    && |after| == |before| + 7 && after[..|before|] == before
    && var es := after[|before|..];
    && es[0].TextE? && es[1].TextE? && es[2].TextE? && es[3].CanvasE?
    && es[4].RectE? && es[5].TextE? && es[6].TextE?
    && es[0].text.text == ScoreLine(score)
    && es[5].text.text == "Press \"r\" to restart!"
  }

  /** A game over as the source has it adds nothing that reacts to a key:
      a registry without a game-over screen stays without one. */
  lemma GameoverAddedPassive(before: seq<Ent>, after: seq<Ent>, score: int, ev: Event)
    requires NoGameoverScreen(before) && GameoverAdded(before, after, score)
    ensures NoGameoverScreen(after)
    ensures forall i :: 0 <= i < |after| ==> !RestartsOn(after[i], ev)
  {
    forall i | 0 <= i < |after| ensures !after[i].GameoverE? {
      if i < |before| {
        assert after[i] == after[..|before|][i];
      } else {
        assert after[i] == after[|before|..][i - |before|];
      }
    }
  }

  /** The registry after the intended game over: what was there, the
      screen's seven entities, and then the screen itself. */
  predicate ScreenRegistered(before: seq<Ent>, after: seq<Ent>) {
    && |after| == |before| + 8 && after[..|before|] == before
    && after[|before| + 7].GameoverE?
    && after[|before|..|before| + 7] == after[|before| + 7].screen.Entities()
  }

  /** Gameover as the source has it: the game-over screen's entities join
      the registry, but the screen itself does not, since SetLevel does
      nothing; so nothing registered reacts to 'r'. */
  method GameoverAsWritten(gs: Gamescreen) returns (gos: Gameoverscreen)
    modifies gs.level.registry
    ensures fresh(gos) && gos.level.registry == gs.level.registry
    ensures |gos.finalstats| == 3 && |gos.optionsText| == 2
    ensures gos.finalstats[0].text == ScoreLine(gs.score) && gos.finalstats[1].text == "Speed: " + Itoa(gs.fps)
    ensures gos.logo.canvas == CanvasFromString(gs.logoFile)
    ensures gos.optionsText[0].text == "Press \"r\" to restart!"
    ensures gs.level.registry.entities == old(gs.level.registry.entities) + gos.Entities()
    ensures GameoverAdded(old(gs.level.registry.entities), gs.level.registry.entities, gs.score)
  {
    gos := new Gameoverscreen(gs.level.registry, gs.score, gs.fps, gs.logoFile);
    AddEach(gos.level, gos.Entities());
  }

  /** The game-over screen's own entities include no game-over screen. */
  lemma GameoverEntitiesPassive(gos: Gameoverscreen)
    ensures NoGameoverScreen(gos.Entities())
    ensures |gos.Entities()| == |gos.finalstats| + 2 + |gos.optionsText|
  {
    var es := gos.Entities();
    forall i | 0 <= i < |es| ensures !es[i].GameoverE? {
      if i < |gos.finalstats| {
        assert es[i] == TextE(gos.finalstats[i]);
      } else if i >= |gos.finalstats| + 2 {
        assert es[i] == TextE(gos.optionsText[i - |gos.finalstats| - 2]);
      }
    }
  }

  /** As written, a game over on a registry without a game-over screen
      leaves one without: the restart key reaches nothing. */
  lemma AsWrittenIgnoresRestart(before: seq<Ent>, gos: Gameoverscreen, ev: Event)
    requires NoGameoverScreen(before)
    ensures forall i :: 0 <= i < |before + gos.Entities()| ==> !RestartsOn((before + gos.Entities())[i], ev)
  {
    GameoverEntitiesPassive(gos);
    var es := before + gos.Entities();
    forall i | 0 <= i < |es| ensures !RestartsOn(es[i], ev) {
      if i >= |before| {
        assert es[i] == gos.Entities()[i - |before|];
      }
    }
  }

  /** Gameover as intended: the game-over screen is also registered, so that
      its Tick receives the keys. */
  method Gameover(gs: Gamescreen) returns (gos: Gameoverscreen)
    modifies gs.level.registry
    ensures fresh(gos) && gos.level.registry == gs.level.registry
    ensures |gos.finalstats| == 3 && |gos.optionsText| == 2
    ensures gos.finalstats[0].text == ScoreLine(gs.score) && gos.finalstats[1].text == "Speed: " + Itoa(gs.fps)
    ensures gos.logo.canvas == CanvasFromString(gs.logoFile)
    ensures gs.level.registry.entities == old(gs.level.registry.entities) + gos.Entities() + [GameoverE(gos)]
    ensures ScreenRegistered(old(gs.level.registry.entities), gs.level.registry.entities)
  {
    gos := GameoverAsWritten(gs);
    gs.level.registry.Register(GameoverE(gos));
    GameoverEntitiesPassive(gos);
    ghost var before := old(gs.level.registry.entities);
    ghost var after := gs.level.registry.entities;
    assert after[..|before|] == before;
    assert after[|before|..|before| + 7] == gos.Entities();
  }

  /** With the intended Gameover, the restart key reaches the screen it
      registered. */
  lemma IntendedRestarts(before: seq<Ent>, after: seq<Ent>, ev: Event)
    requires ScreenRegistered(before, after) && ev.ch == 'r'
    ensures exists i :: 0 <= i < |after| && RestartsOn(after[i], ev)
  {
    assert RestartsOn(after[|before| + 7], ev);
  }

  // ---------------------------------------------------------------------
  // The game loop's two passes over the registry
  // ---------------------------------------------------------------------

  function SnakesOf(es: seq<Ent>): set<Snake> {
    set e | e in es && e.SnakeE? :: e.snake
  }

  predicate SnakesValid(es: seq<Ent>)
    reads SnakesOf(es)
  {
    forall e :: e in es && e.SnakeE? ==> e.snake.Valid()
  }

  /** The snake objects an entity's Tick may change. */
  function TickedSnake(e: Ent): set<object> {
    if e.SnakeE? then {e.snake} else {}
  }

  /** One entity of broadcastTick: a snake takes the key into its queue, a
      game-over screen restarts the game on 'r', everything else ignores it. */
  method TickEntity(gs: Gamescreen, e: Ent, ev: Event, place: Placement)
    requires gs.Valid()
    modifies gs, gs.level, gs.level.registry, gs.panel.scoreText, gs.panel.speedText, gs.game, TickedSnake(e)
    ensures gs.game.quit == old(gs.game.quit)
    ensures e.SnakeE? ==>
      e.snake.State() == old(e.snake.State()).(pending := Admit(old(e.snake.pending), old(e.snake.dir), ev.key))
    ensures !RestartsOn(e, ev) ==> unchanged(gs, gs.level, gs.level.registry, gs.panel.scoreText, gs.panel.speedText, gs.game)
    ensures RestartsOn(e, ev) ==> IsRestarted(gs, place) && fresh(gs.snake) && fresh(gs.food)
  {
    match e {
      case SnakeE(s) =>
        s.Tick(ev);
      case GameoverE(g) =>
        g.Tick(gs, ev, place);
      case _ =>
    }
  }

  /** broadcastTick: every ticker in a snapshot of the registry gets the
      event. Without a game-over screen reacting, each registered snake's
      queue takes the key once (however often the snake is registered) and
      nothing else changes; with one, the game is restarted. */
  method BroadcastTick(gs: Gamescreen, ev: Event, place: Placement)
    requires gs.Valid()
    modifies gs, gs.level, gs.level.registry, gs.panel.scoreText, gs.panel.speedText, gs.game
    modifies SnakesOf(gs.level.registry.entities)
    ensures gs.game.quit == old(gs.game.quit)
    ensures forall e :: e in old(gs.level.registry.entities) && e.SnakeE? ==>
      e.snake.State() == Admitted(old(e.snake.State()), ev.key)
    ensures (forall e :: e in old(gs.level.registry.entities) ==> !RestartsOn(e, ev)) ==>
      && gs.level.registry.entities == old(gs.level.registry.entities)
      && gs.score == old(gs.score) && gs.snake == old(gs.snake) && gs.food == old(gs.food)
    ensures (exists e :: e in old(gs.level.registry.entities) && RestartsOn(e, ev)) ==>
      IsRestarted(gs, place) && fresh(gs.snake) && fresh(gs.food)
  {
    var es := gs.level.registry.Snapshot();
    ghost var states := CurrentStates(es);
    ghost var b := Before(gs.score, gs.snake, gs.food, gs.game.quit, states);
    assert es[..0] == [];
    ghost var restarted, restart := TickAll(gs, es, ev, place, b);
    BroadcastDone(gs, es, ev, place, b, restarted, restart);
  }

  /** The state of each snake among es. */
  ghost method CurrentStates(es: seq<Ent>) returns (m: map<Snake, SnakeState>)
    ensures m.Keys == SnakesOf(es)
    ensures forall s :: s in m ==> m[s] == s.State()
  {
    m := map s | s in SnakesOf(es) :: s.State();
  }

  /** The loop of broadcastTick over the snapshot es. */
  method TickAll(gs: Gamescreen, es: seq<Ent>, ev: Event, place: Placement, ghost b: Before)
    returns (ghost restarted: bool, ghost restart: ScreenView)
    requires gs.Valid() && Broadcasting(gs, es, 0, ev, place, b, false, View(gs))
    requires SnakesOf(es) <= b.states.Keys
    modifies gs, gs.level, gs.level.registry, gs.panel.scoreText, gs.panel.speedText, gs.game, SnakesOf(es)
    ensures Broadcasting(gs, es, |es|, ev, place, b, restarted, restart)
    ensures restarted ==> fresh(gs.snake) && fresh(gs.food)
  {
    restarted, restart := false, View(gs);
    var i := 0;
    while i < |es|
      invariant Broadcasting(gs, es, i, ev, place, b, restarted, restart)
      invariant restarted ==> fresh(gs.snake) && fresh(gs.food)
    {
      assert es[i].SnakeE? ==> es[i].snake in SnakesOf(es);
      restarted, restart := TickNext(gs, es, i, ev, place, b, restarted, restart);
      i := i + 1;
    }
  }

  /** What Broadcasting says once the whole snapshot has had the event. */
  lemma BroadcastDone(gs: Gamescreen, es: seq<Ent>, ev: Event, place: Placement,
                      b: Before, restarted: bool, restart: ScreenView)
    requires Broadcasting(gs, es, |es|, ev, place, b, restarted, restart)
    ensures forall e :: e in es && e.SnakeE? ==> e.snake in b.states ==> e.snake.State() == Admitted(b.states[e.snake], ev.key)
    ensures (forall e :: e in es ==> !RestartsOn(e, ev)) ==>
      gs.level.registry.entities == es && gs.score == b.score && gs.snake == b.snake && gs.food == b.food
    ensures restarted <==> exists e :: e in es && RestartsOn(e, ev)
    ensures restarted ==> IsRestarted(gs, place)
    ensures gs.game.quit == b.quit
  {
    assert es[..|es|] == es;
    AnyRestartExists(es, ev);
    assert forall e :: e in es && e.SnakeE? ==> e.snake in SnakesOf(es);
  }

  /** A snake's state once the key has gone into its queue. */
  function Admitted(st: SnakeState, key: Key): SnakeState {
    st.(pending := Admit(st.pending, st.dir, key))
  }

  /** Every snake among es is in the state it had before the broadcast,
      with the key admitted once when it is among the ticked ones. */
  ghost predicate SnakesTicked(states: map<Snake, SnakeState>, ticked: set<Snake>, key: Key)
    reads states.Keys
  {
    forall s :: s in states ==>
      s.State() == if s in ticked then Admitted(states[s], key) else states[s]
  }

  /** The game screen as broadcastTick found it: score, snake, food, quit
      flag, and the state of each snake in the snapshot. */
  datatype Before = Before(score: int, snake: Snake, food: Food, quit: bool, states: map<Snake, SnakeState>)

  /** broadcastTick after the first i entities of the snapshot es: until a
      game-over screen restarts the game nothing but the snakes has changed;
      after it, the screen is as the last restart left it; each snake of
      the first i entities has admitted the key once. */
  ghost predicate Broadcasting(gs: Gamescreen, es: seq<Ent>, i: nat, ev: Event, place: Placement,
                               b: Before, restarted: bool, restart: ScreenView)
    reads gs, gs.level.registry, gs.game, gs.snake, gs.food, gs.panel.scoreText, gs.panel.speedText, b.states.Keys
  {
    && i <= |es|
    && restarted == AnyRestart(es[..i], ev)
    && (!restarted ==>
          gs.level.registry.entities == es && gs.score == b.score && gs.snake == b.snake && gs.food == b.food)
    && (restarted ==> View(gs) == restart && RestartedView(restart, place) && gs.game.fps == DefaultFps)
    && gs.game.quit == b.quit
    && SnakesTicked(b.states, SnakesOf(es[..i]), ev.key)
  }

  /** One pass of broadcastTick's loop: entity i of the snapshot gets the event. */
  method TickNext(gs: Gamescreen, es: seq<Ent>, i: nat, ev: Event, place: Placement,
                  ghost b: Before, ghost restarted: bool, ghost restart: ScreenView)
    returns (ghost restarted': bool, ghost restart': ScreenView)
    requires gs.Valid() && i < |es| && Broadcasting(gs, es, i, ev, place, b, restarted, restart)
    requires restarted ==> gs.snake !in TickedSnake(es[i])
    requires es[i].SnakeE? ==> es[i].snake in b.states
    modifies gs, gs.level, gs.level.registry, gs.panel.scoreText, gs.panel.speedText, gs.game, TickedSnake(es[i])
    ensures Broadcasting(gs, es, i + 1, ev, place, b, restarted', restart')
    ensures restarted' && !restarted ==> fresh(gs.snake) && fresh(gs.food)
    ensures restarted && !RestartsOn(es[i], ev) ==> gs.snake == old(gs.snake) && gs.food == old(gs.food)
    ensures restarted && RestartsOn(es[i], ev) ==> fresh(gs.snake) && fresh(gs.food)
  {
    if es[i].SnakeE? {
      TickSnake(gs, es, i, ev, place, b, restarted, restart);
      restarted', restart' := restarted, restart;
    } else {
      restarted', restart' := TickOther(gs, es, i, ev, place, b, restarted, restart);
    }
  }

  /** TickNext for a snake: its queue takes the key; nothing else changes. */
  method TickSnake(gs: Gamescreen, es: seq<Ent>, i: nat, ev: Event, place: Placement,
                   ghost b: Before, ghost restarted: bool, ghost restart: ScreenView)
    requires i < |es| && es[i].SnakeE? && Broadcasting(gs, es, i, ev, place, b, restarted, restart)
    requires restarted ==> gs.snake != es[i].snake
    requires es[i].snake in b.states
    modifies es[i].snake
    ensures Broadcasting(gs, es, i + 1, ev, place, b, restarted, restart)
  {
    var s := es[i].snake;
    SnakesOfSnoc(es[..i], es[i]);
    assert es[..i + 1] == es[..i] + [es[i]];
    assert es[..i + 1][..i] == es[..i];
    if s in SnakesOf(es[..i]) {
      var st := b.states[s];
      AdmitIdempotent(st.pending, st.dir, ev.key);
    }
    s.Tick(ev);
  }

  /** TickNext for any other entity: a game-over screen restarts the game
      on 'r'; no snake changes. */
  method TickOther(gs: Gamescreen, es: seq<Ent>, i: nat, ev: Event, place: Placement,
                   ghost b: Before, ghost restarted: bool, ghost restart: ScreenView)
    returns (ghost restarted': bool, ghost restart': ScreenView)
    requires gs.Valid() && i < |es| && !es[i].SnakeE? && Broadcasting(gs, es, i, ev, place, b, restarted, restart)
    modifies gs, gs.level, gs.level.registry, gs.panel.scoreText, gs.panel.speedText, gs.game
    ensures Broadcasting(gs, es, i + 1, ev, place, b, restarted', restart')
    ensures restarted' && !restarted ==> fresh(gs.snake) && fresh(gs.food)
    ensures restarted && !RestartsOn(es[i], ev) ==> gs.snake == old(gs.snake) && gs.food == old(gs.food)
    ensures restarted && RestartsOn(es[i], ev) ==> fresh(gs.snake) && fresh(gs.food)
  {
    var e := es[i];
    SnakesOfSnoc(es[..i], e);
    assert es[..i + 1] == es[..i] + [e];
    assert es[..i + 1][..i] == es[..i];
    TickEntity(gs, e, ev, place);
    restarted' := restarted || RestartsOn(e, ev);
    restart' := if RestartsOn(e, ev) then View(gs) else restart;
  }

  lemma SnakesOfSnoc(es: seq<Ent>, e: Ent)
    ensures SnakesOf(es + [e]) == SnakesOf(es) + if e.SnakeE? then {e.snake} else {}
  {
    var xs := es + [e];
    forall s | s in SnakesOf(xs) ensures s in SnakesOf(es) || (e.SnakeE? && s == e.snake) {
      var x :| x in xs && x.SnakeE? && x.snake == s;
      if x != e { assert x in es; }
    }
  }

  /** One event of Game.Start's dispatch burst: Delete sets the quit flag,
      then the event is broadcast, with BroadcastTick's effect on the snakes,
      the registry and a restart. */
  method Dispatch(gs: Gamescreen, ev: Event, place: Placement)
    requires gs.Valid()
    modifies gs, gs.level, gs.level.registry, gs.panel.scoreText, gs.panel.speedText, gs.game
    modifies SnakesOf(gs.level.registry.entities)
    ensures gs.game.quit == (old(gs.game.quit) || ev.key == Delete)
    ensures forall e :: e in old(gs.level.registry.entities) && e.SnakeE? ==>
      e.snake.State() == Admitted(old(e.snake.State()), ev.key)
    ensures (forall e :: e in old(gs.level.registry.entities) ==> !RestartsOn(e, ev)) ==>
      && gs.level.registry.entities == old(gs.level.registry.entities)
      && gs.score == old(gs.score) && gs.snake == old(gs.snake) && gs.food == old(gs.food)
    ensures (exists e :: e in old(gs.level.registry.entities) && RestartsOn(e, ev)) ==>
      IsRestarted(gs, place) && fresh(gs.snake) && fresh(gs.food)
  {
    if ev.key == Delete {
      gs.game.quit := true;
    }
    BroadcastTick(gs, ev, place);
  }

  /** What one entity painted in a frame, as it stood when it drew. */
  datatype Painted =
    | Nothing
    | TextP(x: int, y: int, fg: Attr, bg: Attr, content: seq<char>)
    | RectP(x: int, y: int, w: nat, h: nat, bg: Attr)
    | CanvasP(x: int, y: int, canvas: seq<seq<char>>)
    | BodyP(body: seq<Coordinates>)

  /** The cells after painting p onto cells. */
  function Paint(cells: Cells, p: Painted): Cells {
    match p
    case Nothing => cells
    case TextP(x, y, fg, bg, content) => PaintText(cells, x, y, fg, bg, content, |content|)
    case RectP(x, y, w, h, bg) => PaintRect(cells, x, y, w, bg, h)
    case CanvasP(x, y, canvas) => PaintCanvas(cells, x, y, canvas, |canvas|)
    case BodyP(body) => PaintBody(cells, body, |body|)
  }

  /** The cells after painting ps onto cells, in order. */
  function PaintAll(cells: Cells, ps: seq<Painted>): Cells {
    if ps == [] then cells else Paint(PaintAll(cells, ps[..|ps| - 1]), ps[|ps| - 1])
  }

  /** What e paints: a text its string at its place in its colours, a
      rectangle its clamped size, a canvas entity its canvas at its place,
      a snake its body or, when its step ended the game, nothing; the arena,
      the food and a game-over screen paint nothing. */
  predicate Shows(e: Ent, p: Painted)
    reads if e.TextE? then {e.text} else {}, if e.CanvasE? then {e.entity} else {}
    reads if e.SnakeE? then {e.snake} else {}
  {
    match e
    case TextE(t) => p == TextP(t.x, t.y, t.fg, t.bg, t.text)
    case RectE(r) => p == RectP(r.x, r.y, Clamp(r.w), Clamp(r.h), r.bg)
    case CanvasE(en) => p == CanvasP(en.x, en.y, en.canvas)
    case SnakeE(s) => p.Nothing? || p == BodyP(s.body)
    case _ => p.Nothing?
  }

  /** Each snake occurs at most once among es, as in the game's registry:
      the game screen adds its snake once, and a restart removes the old
      snake before adding the new one. */
  predicate SnakesOnce(es: seq<Ent>) {
    forall j, k :: 0 <= j < k < |es| && es[j].SnakeE? && es[k].SnakeE? ==> es[j].snake != es[k].snake
  }

  /** The entities the game screen adds hold its snake, and only once. */
  lemma EntitiesSnakeOnce(gs: Gamescreen)
    ensures SnakesOnce(gs.Entities())
    ensures SnakesOf(gs.Entities()) == {gs.snake}
  {
    var es := gs.Entities();
    assert es[5] == SnakeE(gs.snake);
  }

  /** The score, score text and speed text as a frame found them. */
  datatype FrameStart = FrameStart(score: int, scoreText: seq<char>, speedText: seq<char>)

  /** A score text's content during a frame: as the frame found it, or the
      score line of a score between the frame's first one and hi. */
  ghost predicate ScoreFrom(content: seq<char>, start: FrameStart, hi: int) {
    content == start.scoreText || exists n :: start.score <= n <= hi && content == ScoreLine(n)
  }

  /** A speed text's content during a frame: as the frame found it, or the
      speed line of some speed. */
  ghost predicate SpeedFrom(content: seq<char>, start: FrameStart) {
    content == start.speedText || exists v :: content == SpeedLine(v)
  }

  /** e is one of the side panel's two texts, which a snake's step may
      rewrite. */
  predicate PanelText(gs: Gamescreen, e: Ent) {
    e.TextE? && (e.text == gs.panel.scoreText || e.text == gs.panel.speedText)
  }

  /** What e painted in the frame that started at start: a panel text its
      place and colours and a content the frame's steps allow (it may have
      been rewritten since it was drawn); anything else what it shows. */
  ghost predicate Drew(gs: Gamescreen, e: Ent, p: Painted, start: FrameStart)
    reads gs, if e.TextE? then {e.text} else {}, if e.CanvasE? then {e.entity} else {}
    reads if e.SnakeE? then {e.snake} else {}
  {
    if PanelText(gs, e) then
      && p.TextP? && p.x == e.text.x && p.y == e.text.y && p.fg == e.text.fg && p.bg == e.text.bg
      && (e.text == gs.panel.scoreText ==> ScoreFrom(p.content, start, gs.score))
      && (e.text == gs.panel.speedText ==> SpeedFrom(p.content, start))
    else Shows(e, p)
  }

  /** drawFrame: clear the buffer, let every drawable in a snapshot of the
      registry draw (Text, Rectangle and canvas Entity twice, once as
      drawables and once by their concrete type), then compose the frame.
      The buffer is what the snapshot's entities painted, in order, onto an
      empty one. Each painted what it shows: a snake its own body unless
      its step ended the game; the score and speed texts the score line of
      a score reached in this frame, or a speed line, or what they held. */
  method DrawFrame(gs: Gamescreen, screen: Screen) returns (b: TermFrame.Box, out: seq<char>, ghost ps: seq<Painted>)
    requires gs.Valid() && SnakesValid(gs.level.registry.entities) && SnakesOnce(gs.level.registry.entities)
    modifies screen, gs, gs.food, gs.panel.scoreText, gs.panel.speedText, gs.level.registry
    modifies SnakesOf(gs.level.registry.entities)
    ensures |ps| == |old(gs.level.registry.entities)| && screen.cells == PaintAll(map[], ps)
    ensures forall j :: 0 <= j < |ps| ==>
      Drew(gs, old(gs.level.registry.entities)[j], ps[j],
           FrameStart(old(gs.score), old(gs.panel.scoreText.text), old(gs.panel.speedText.text)))
    ensures screen.Valid() && TermFrame.IsBounds(screen.cells, b) && out == TermFrame.Frame(screen.cells, b)
    ensures old(gs.level.registry.entities) == [] ==> screen.cells == map[] && b == TermFrame.Box(0, 0, 0, 0)
  {
    screen.Clear();
    var es := gs.level.registry.Snapshot();
    ghost var start := FrameStart(gs.score, gs.panel.scoreText.text, gs.panel.speedText.text);
    ps := [];
    var i := 0;
    while i < |es|
      invariant 0 <= i <= |es| && |ps| == i
      invariant screen.Valid() && SnakesValid(es) && screen.cells == PaintAll(map[], ps)
      invariant gs.score >= start.score && ScoreFrom(gs.panel.scoreText.text, start, gs.score)
      invariant SpeedFrom(gs.panel.speedText.text, start)
      invariant forall j :: 0 <= j < i ==> Drew(gs, es[j], ps[j], start)
      invariant gs.food == old(gs.food)
    {
      ps := DrawNext(gs, screen, es, i, ps, start);
      i := i + 1;
    }
    b, out := TermFrame.Compose(screen.cells);
  }

  /** One pass of DrawFrame's loop: the next entity of the snapshot draws.
      What the earlier ones painted still fits them: only the panel texts,
      the score and this entity's own snake can have changed. */
  method DrawNext(gs: Gamescreen, screen: Screen, es: seq<Ent>, i: nat, ghost ps: seq<Painted>, ghost start: FrameStart)
    returns (ghost ps': seq<Painted>)
    requires i == |ps| < |es| && gs.Valid() && screen.Valid() && SnakesValid(es) && SnakesOnce(es)
    requires screen.cells == PaintAll(map[], ps)
    requires gs.score >= start.score && ScoreFrom(gs.panel.scoreText.text, start, gs.score)
    requires SpeedFrom(gs.panel.speedText.text, start)
    requires forall j :: 0 <= j < |ps| ==> Drew(gs, es[j], ps[j], start)
    modifies screen, gs, gs.food, gs.panel.scoreText, gs.panel.speedText, gs.level.registry, TickedSnake(es[i])
    ensures |ps'| == |ps| + 1 && ps'[..|ps|] == ps
    ensures screen.Valid() && SnakesValid(es) && gs.food == old(gs.food) && screen.cells == PaintAll(map[], ps')
    ensures gs.score >= start.score && ScoreFrom(gs.panel.scoreText.text, start, gs.score)
    ensures SpeedFrom(gs.panel.speedText.text, start)
    ensures forall j :: 0 <= j < |ps'| ==> Drew(gs, es[j], ps'[j], start)
  {
    var p := DrawEntity(gs, screen, es, i);
    ps' := ps + [p];
    assert ps'[..|ps|] == ps;
    if gs.panel.scoreText.text != start.scoreText {
      if gs.panel.scoreText.text == ScoreLine(gs.score) {
        assert start.score <= gs.score;
      } else {
        var n :| start.score <= n <= old(gs.score) && old(gs.panel.scoreText.text) == ScoreLine(n);
        assert start.score <= n <= gs.score;
      }
    }
    forall j | 0 <= j < |ps'| ensures Drew(gs, es[j], ps'[j], start) {
      if j < |ps| {
        assert ps'[j] == ps[j];
        assert old(Drew(gs, es[j], ps[j], start));
        if PanelText(gs, es[j]) && es[j].text == gs.panel.scoreText && ps[j].content != start.scoreText {
          var n :| start.score <= n <= old(gs.score) && ps[j].content == ScoreLine(n);
          assert start.score <= n <= gs.score;
        }
        if es[j].SnakeE? && es[i].SnakeE? {
          assert es[j].snake != es[i].snake;
        }
      }
    }
  }

  /** One entity of DrawFrame's loop: each drawable draws itself onto the
      screen (a snake also takes its step); the rest draw nothing. Drawing
      twice paints what drawing once does. */
  method DrawEntity(gs: Gamescreen, screen: Screen, es: seq<Ent>, i: nat) returns (ghost p: Painted)
    requires i < |es| && gs.Valid() && screen.Valid() && SnakesValid(es)
    modifies screen, gs, gs.food, gs.panel.scoreText, gs.panel.speedText, gs.level.registry, TickedSnake(es[i])
    ensures screen.Valid() && SnakesValid(es) && gs.food == old(gs.food)
    ensures screen.cells == Paint(old(screen.cells), p) && Shows(es[i], p)
    ensures gs.score >= old(gs.score)
    ensures gs.panel.scoreText.text == old(gs.panel.scoreText.text) || gs.panel.scoreText.text == ScoreLine(gs.score)
    ensures gs.panel.speedText.text == old(gs.panel.speedText.text) || gs.panel.speedText.text == SpeedLine(gs.snake.speed)
    ensures es[i].SnakeE? ==>
      p == if Step(old(es[i].snake.State()), old(gs.food.State()), gs.arena.border, gs.food.place).over
           then Nothing else BodyP(es[i].snake.body)
  {
    match es[i] {
      case SnakeE(s) =>
        StepGrowth(s.State(), gs.food.State(), gs.arena.border, gs.food.place);
        s.Draw(gs, screen);
        p := if Step(old(s.State()), old(gs.food.State()), gs.arena.border, gs.food.place).over
             then Nothing else BodyP(s.body);
      case TextE(t) =>
        TextTwice(screen.cells, t.x, t.y, t.fg, t.bg, t.text);
        t.Draw(screen);
        t.Draw(screen);
        p := TextP(t.x, t.y, t.fg, t.bg, t.text);
      case RectE(r) =>
        RectTwice(screen.cells, r.x, r.y, Clamp(r.w), r.bg, Clamp(r.h));
        r.Draw(screen);
        r.Draw(screen);
        p := RectP(r.x, r.y, Clamp(r.w), Clamp(r.h), r.bg);
      case CanvasE(en) =>
        CanvasTwice(screen.cells, en.x, en.y, en.canvas);
        en.Draw(screen);
        en.Draw(screen);
        p := CanvasP(en.x, en.y, en.canvas);
      case _ =>
        p := Nothing;
    }
  }
}
