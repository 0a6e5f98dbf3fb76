/**
 * The rules of the snake game as values: directions and the arrow-key filter,
 * the level and speed rule, the colour choice, and one step of `update`.
 * The class in module Game updates its fields in place and is proved to
 * follow these functions.
 */
module Rules {
  import opened Seqs
  import opened Board

  // ---------------------------------------------------------------------------
  // Directions and keys

  const Right := Point(1, 0)

  predicate IsUnit(d: Point) {
    d == Point(1, 0) || d == Point(-1, 0) || d == Point(0, 1) || d == Point(0, -1)
  }

  predicate Horizontal(d: Point) { d.y == 0 }

  predicate Vertical(d: Point) { d.x == 0 }

  /** The two directions lie on different axes. */
  predicate Perpendicular(a: Point, b: Point) {
    (Horizontal(a) && Vertical(b)) || (Vertical(a) && Horizontal(b))
  }

  function Reverse(d: Point): Point {
    Point(-d.x, -d.y)
  }

  /** `a` is one step from `b`. */
  predicate Adjacent(a: Point, b: Point) {
    IsUnit(Point(a.x - b.x, a.y - b.y))
  }

  /**
   * Consecutive segments of the snake touch. The pair `i, j` with
   * `j == i + 1` lets the quantifier trigger on the two index terms `s[i]`
   * and `s[j]`; a single `i` triggering on `s[i]` and producing `s[i + 1]`
   * would feed itself new index terms.
   */
  ghost predicate Connected(s: seq<Point>) {
    forall i, j :: 0 <= i < j < |s| && j == i + 1 ==> Adjacent(s[i], s[j])
  }

  /** The `e.code` values the key handler distinguishes. */
  datatype Key = ArrowUp | ArrowDown | ArrowLeft | ArrowRight | Space | OtherKey

  predicate IsArrow(k: Key) {
    k.ArrowUp? || k.ArrowDown? || k.ArrowLeft? || k.ArrowRight?
  }

  /** The direction an arrow key asks for (the screen's y axis points down). */
  function Heading(k: Key): Point
    requires IsArrow(k)
  {
    match k
    case ArrowUp => Point(0, -1)
    case ArrowDown => Point(0, 1)
    case ArrowLeft => Point(-1, 0)
    case ArrowRight => Point(1, 0)
  }

  /**
   * The new `nextDirection` after key `k` while the game runs, given the
   * committed `direction` d: an arrow is taken exactly when it turns off the
   * axis of d, otherwise the buffered `next` stays.
   */
  function Steer(d: Point, next: Point, k: Key): (r: Point)
    ensures IsArrow(k) && Perpendicular(d, Heading(k)) ==> r == Heading(k)
    ensures !(IsArrow(k) && Perpendicular(d, Heading(k))) ==> r == next
  {
    match k
    case ArrowUp => if d.y == 0 then Point(0, -1) else next
    case ArrowDown => if d.y == 0 then Point(0, 1) else next
    case ArrowLeft => if d.x == 0 then Point(-1, 0) else next
    case ArrowRight => if d.x == 0 then Point(1, 0) else next
    case _ => next
  }

  /**
   * Whatever keys arrive between two ticks, the buffered direction stays a
   * unit vector equal or perpendicular to the committed one, so it is never
   * its reverse.
   */
  lemma SteerKeepsHeading(d: Point, next: Point, k: Key)
    requires IsUnit(d) && IsUnit(next) && (next == d || Perpendicular(d, next))
    ensures var r := Steer(d, next, k);
      IsUnit(r) && (r == d || Perpendicular(d, r)) && r != Reverse(d)
  {
    if IsArrow(k) && Perpendicular(d, Heading(k)) {
      assert IsUnit(Heading(k));
    }
  }

  // ---------------------------------------------------------------------------
  // Score, level and speed

  const ApplePoints := 10
  const LevelPoints := 100
  const InitialSpeed := 150.0
  const MinSpeed := 50.0

  /** `Math.floor(score / 100) + 1`: the level whose 100-point band holds the score. */
  function LevelFor(score: int): (level: int)
    ensures (level - 1) * LevelPoints <= score < level * LevelPoints
  {
    score / LevelPoints + 1
  }

  /** Ten more points move the level up by one at most, never down. */
  lemma LevelRisesByAtMostOne(score: int)
    ensures LevelFor(score) <= LevelFor(score + ApplePoints) <= LevelFor(score) + 1
  {
  }

  /** `Math.max(50, speed * 0.9)`: ten percent faster, but never below 50 ms. */
  function NextSpeed(speed: real): (r: real)
    ensures r >= MinSpeed && r >= speed * 0.9
    ensures r == MinSpeed || r == speed * 0.9
    ensures speed >= MinSpeed ==> r <= speed
    ensures speed > MinSpeed ==> r < speed
  {
    if MinSpeed >= speed * 0.9 then MinSpeed else speed * 0.9
  }

  /** The step interval at a level reached one level at a time from level 1. */
  function SpeedAt(level: int): (r: real)
    ensures MinSpeed <= r <= InitialSpeed
    decreases level
  {
    if level <= 1 then InitialSpeed else NextSpeed(SpeedAt(level - 1))
  }

  /** The interval never grows as the level rises. */
  lemma {:induction false} SpeedNeverRises(lo: int, hi: int)
    requires lo <= hi
    ensures SpeedAt(hi) <= SpeedAt(lo)
    decreases hi - lo
  {
    if lo < hi {
      SpeedNeverRises(lo, hi - 1);
      assert SpeedAt(hi) <= SpeedAt(hi - 1);
    }
  }

  // ---------------------------------------------------------------------------
  // Colours

  /** The CSS classes `snake-green`, `snake-blue`, ... of the snake's colour. */
  datatype SnakeColor = Green | Blue | Red | Black | Fuchsia | Yellow

  const SnakeColors: seq<SnakeColor> := [Green, Blue, Red, Black, Fuchsia, Yellow]
  const InitialColor := Green
  /** The CSS classes `level-1`, `level-2`, `level-3` of the page background. */
  datatype Background = Level1 | Level2 | Level3

  const BackgroundColors: seq<Background> := [Level1, Level2, Level3]

  /**
   * `snakeColors.filter(color => color !== current)`: every palette colour
   * but the current one, in palette order.
   */
  function AvailableColors(current: SnakeColor): (r: seq<SnakeColor>)
    ensures forall c :: c in r <==> c in SnakeColors && c != current
    ensures |r| == |SnakeColors| - 1
  {
    match current
    case Green => [Blue, Red, Black, Fuchsia, Yellow]
    case Blue => [Green, Red, Black, Fuchsia, Yellow]
    case Red => [Green, Blue, Black, Fuchsia, Yellow]
    case Black => [Green, Blue, Red, Fuchsia, Yellow]
    case Fuchsia => [Green, Blue, Red, Black, Yellow]
    case Yellow => [Green, Blue, Red, Black, Fuchsia]
  }

  /** `backgroundColors[(level - 1) % backgroundColors.length]` */
  function BackgroundFor(level: int): (c: Background)
    requires level >= 1
    ensures c in BackgroundColors
    ensures level <= |BackgroundColors| ==> c == BackgroundColors[level - 1]
  {
    BackgroundColors[(level - 1) % |BackgroundColors|]
  }

  /** The background cycles through its three classes. */
  lemma BackgroundCycles(level: int)
    requires level >= 1
    ensures BackgroundFor(level + |BackgroundColors|) == BackgroundFor(level)
  {
  }

  // ---------------------------------------------------------------------------
  // Game state and one tick

  /** The fields of `SnakeGame` that `update` reads and writes. */
  datatype GameState = GameState(
    snake: seq<Point>,
    direction: Point,
    nextDirection: Point,
    apple: Point,
    score: int,
    level: int,
    speed: real,
    color: SnakeColor)

  const InitialSnake := [Point(20, 25), Point(19, 25), Point(18, 25)]
  const InitialState :=
    GameState(InitialSnake, Right, Right, Point(30, 20), 0, 1, InitialSpeed, InitialColor)

  /**
   * What holds of the game state between ticks: the snake is on the board,
   * never overlaps itself, is one connected body whose head went one step in
   * `direction`, and has grown by one segment per apple eaten; the apple is a
   * free cell; the buffered direction never reverses the committed one; the
   * level and speed follow from the score.
   */
  ghost predicate Inv(st: GameState) {
    && 3 <= |st.snake|
    && AllInBounds(st.snake) && Distinct(st.snake) && Connected(st.snake)
    && st.snake[0] == Move(st.snake[1], st.direction)
    && InBounds(st.apple) && st.apple !in st.snake
    && IsUnit(st.direction) && IsUnit(st.nextDirection)
    && (st.nextDirection == st.direction || Perpendicular(st.direction, st.nextDirection))
    && st.score >= 0 && st.score % ApplePoints == 0
    && |st.snake| == |InitialSnake| + st.score / ApplePoints
    && st.level == LevelFor(st.score) && st.speed == SpeedAt(st.level)
  }

  lemma InitialStateIsValid()
    ensures Inv(InitialState)
  {
  }

  /** A key press keeps every invariant: it only rewrites the buffered direction, and never to a reversal. */
  lemma SteerKeepsInv(st: GameState, k: Key)
    requires Inv(st)
    ensures Inv(st.(nextDirection := Steer(st.direction, st.nextDirection, k)))
  {
    SteerKeepsHeading(st.direction, st.nextDirection, k);
  }

  /** `resetGame`: the initial round with a freshly drawn apple. */
  function Reset(draws: seq<Point>): (st: GameState)
    requires RandomStream(draws)
    ensures Inv(st)
    ensures st.score == 0 && st.level == 1 && st.speed == InitialSpeed
    ensures st.snake == InitialSnake && st.direction == Right && st.nextDirection == Right
    ensures st.color == InitialColor && st.apple in draws
  {
    StreamFindsFreeCell(draws, InitialSnake);
    InitialState.(apple := FirstFree(draws, InitialSnake).value)
  }

  /** `checkLevelUp` with `increaseSpeed` and `changeSnakeColor`. */
  function LeveledUp(st: GameState, pick: nat): (r: GameState)
    requires pick < |AvailableColors(st.color)|
  {
    var newLevel := LevelFor(st.score);
    if newLevel > st.level then
      st.(level := newLevel, speed := NextSpeed(st.speed), color := AvailableColors(st.color)[pick])
    else st
  }

  /** How a tick ended, with the state after it. */
  datatype Outcome =
    | Moved(state: GameState)
    | Ate(state: GameState)
    | Crashed(state: GameState)
    | Hung(state: GameState)

  /**
   * `update`: commit the buffered direction, move the head one cell, end the
   * round on a wall or on any segment, otherwise grow on the apple or drop
   * the tail. `draws` stands for the random cells `generateApple` samples and
   * `pick` for the random index `changeSnakeColor` takes. When no draw is
   * free, `generateApple` never returns: the outcome is Hung, with the state
   * as that loop leaves it (longer snake, higher score, old apple).
   */
  function Step(st: GameState, draws: seq<Point>, pick: nat): Outcome
    requires 1 <= |st.snake|
    requires RandomStream(draws) && pick < |AvailableColors(st.color)|
  {
    var dir := st.nextDirection;
    var head := Move(st.snake[0], dir);
    var grown := [head] + st.snake;
    if !InBounds(head) || head in st.snake then
      Crashed(Reset(draws))
    else if head == st.apple then
      var fed := st.(snake := grown, direction := dir, score := st.score + ApplePoints);
      match FirstFree(draws, grown)
      case None => Hung(fed)
      case Some(cell) => Ate(LeveledUp(fed.(apple := cell), pick))
    else
      Moved(st.(snake := grown[..|grown| - 1], direction := dir))
  }

  /** A valid state and random inputs from which the tick returns. */
  ghost predicate CanStep(st: GameState, draws: seq<Point>, pick: nat) {
    Inv(st) && RandomStream(draws) && pick < |AvailableColors(st.color)| && !Step(st, draws, pick).Hung?
  }

  /** A body that is on the board, without overlaps and connected stays so when a free adjacent head is pushed on. */
  lemma PushHeadKeepsBody(s: seq<Point>, head: Point)
    requires 1 <= |s| && AllInBounds(s) && Distinct(s) && Connected(s)
    requires InBounds(head) && head !in s && Adjacent(head, s[0])
    ensures var t := [head] + s; AllInBounds(t) && Distinct(t) && Connected(t)
  {
    var t := [head] + s;
    assert forall i :: 1 <= i < |t| ==> t[i] == s[i - 1];
  }

  /** Dropping the tail keeps a body on the board, without overlaps and connected. */
  lemma DropTailKeepsBody(t: seq<Point>)
    requires 1 <= |t| && AllInBounds(t) && Distinct(t) && Connected(t)
    ensures var u := t[..|t| - 1]; AllInBounds(u) && Distinct(u) && Connected(u)
  {
  }

  /** Each level after the first runs at `increaseSpeed` of the one before. */
  lemma SpeedAtNext(level: int)
    requires level >= 1
    ensures SpeedAt(level + 1) == NextSpeed(SpeedAt(level))
  {
  }

  /**
   * After ten more points, `checkLevelUp` restores the level and speed rule:
   * the level again follows from the score and the interval from the level.
   * The level rises by at most one; when it rises the interval does not grow
   * and the colour changes, otherwise nothing changes.
   */
  lemma LevelUpRestoresRule(st: GameState, pick: nat)
    requires pick < |AvailableColors(st.color)|
    requires st.score >= ApplePoints && st.level == LevelFor(st.score - ApplePoints)
    requires st.speed == SpeedAt(st.level)
    ensures var r := LeveledUp(st, pick);
      && r.level == LevelFor(r.score) && r.speed == SpeedAt(r.level)
      && r.(level := st.level, speed := st.speed, color := st.color) == st
      && st.level <= r.level <= st.level + 1
      && MinSpeed <= r.speed <= st.speed
      && (r.level == st.level + 1 ==> r.color != st.color)
      && (r.level == st.level ==> r == st)
  {
    LevelRisesByAtMostOne(st.score - ApplePoints);
    var newLevel := LevelFor(st.score);
    if newLevel > st.level {
      assert newLevel == st.level + 1 && st.level >= 1;
      SpeedAtNext(st.level);
      var c := AvailableColors(st.color);
      assert c[pick] in c;
      var r := st.(level := st.level + 1, speed := SpeedAt(st.level + 1), color := c[pick]);
      assert LeveledUp(st, pick) == r;
      assert r.speed == SpeedAt(r.level);
    } else {
      assert LeveledUp(st, pick) == st;
    }
  }

  /** The state after a tick that eats the apple. */
  lemma EatKeepsInv(st: GameState, draws: seq<Point>, pick: nat)
    requires CanStep(st, draws, pick)
    requires var head := Move(st.snake[0], st.nextDirection);
      InBounds(head) && head !in st.snake && head == st.apple
    ensures Inv(Step(st, draws, pick).state)
  {
    var s := st.snake;
    var head := Move(s[0], st.nextDirection);
    var grown := [head] + s;
    assert Adjacent(head, s[0]);
    PushHeadKeepsBody(s, head);
    assert FirstFree(draws, grown).Some?;
    var fed := st.(snake := grown, direction := st.nextDirection, score := st.score + ApplePoints,
                   apple := FirstFree(draws, grown).value);
    assert InBounds(fed.apple);
    LevelUpRestoresRule(fed, pick);
    var r := LeveledUp(fed, pick);
    assert Step(st, draws, pick).state == r;
    assert (st.score + ApplePoints) / ApplePoints == st.score / ApplePoints + 1;
    assert r.snake == grown && r.apple == fed.apple && r.direction == st.nextDirection;
    assert r.nextDirection == st.nextDirection && r.score == st.score + ApplePoints;
  }

  /** The state after a tick that moves without eating. */
  lemma MoveKeepsInv(st: GameState, draws: seq<Point>, pick: nat)
    requires CanStep(st, draws, pick)
    requires var head := Move(st.snake[0], st.nextDirection);
      InBounds(head) && head !in st.snake && head != st.apple
    ensures Inv(Step(st, draws, pick).state)
  {
    var s := st.snake;
    var head := Move(s[0], st.nextDirection);
    var grown := [head] + s;
    assert Adjacent(head, s[0]);
    PushHeadKeepsBody(s, head);
    DropTailKeepsBody(grown);
  }

  /** A tick keeps every invariant, whichever way it ends. */
  lemma StepPreservesInv(st: GameState, draws: seq<Point>, pick: nat)
    requires CanStep(st, draws, pick)
    ensures Inv(Step(st, draws, pick).state)
  {
    var head := Move(st.snake[0], st.nextDirection);
    if InBounds(head) && head !in st.snake {
      if head == st.apple {
        EatKeepsInv(st, draws, pick);
      } else {
        MoveKeepsInv(st, draws, pick);
      }
    }
  }

  /**
   * A tick hangs in `generateApple` exactly when the snake eats the apple
   * with 1999 segments: the grown snake then covers the whole board, so no
   * draw is ever free. Every other tick returns.
   */
  lemma HangsExactlyOnFullBoard(st: GameState, draws: seq<Point>, pick: nat)
    requires Inv(st) && RandomStream(draws) && pick < |AvailableColors(st.color)|
    ensures var head := Move(st.snake[0], st.nextDirection);
      Step(st, draws, pick).Hung? <==>
        InBounds(head) && head !in st.snake && head == st.apple && |st.snake| + 1 == BoardCells
  {
    var s := st.snake;
    var head := Move(s[0], st.nextDirection);
    var grown := [head] + s;
    if InBounds(head) && head !in s && head == st.apple {
      if |grown| < BoardCells {
        StreamFindsFreeCell(draws, grown);
      } else {
        assert Adjacent(head, s[0]);
        PushHeadKeepsBody(s, head);
        DistinctCellsFit(grown);
        forall c | c in draws ensures c in grown {
          FullSnakeCoversBoard(grown, c);
        }
      }
    }
  }

  /**
   * The head of a valid state never turns back into the neck: the buffered
   * direction is never the reverse of the one the head arrived by.
   */
  lemma NeckIsSafe(st: GameState)
    requires Inv(st)
    ensures Move(st.snake[0], st.nextDirection) != st.snake[1]
  {
  }

  /**
   * A tick ends the round exactly when the new head leaves the board or
   * lands on any current segment, the tail included; it then returns every
   * field to its initial value.
   */
  lemma CrashIsReset(st: GameState, draws: seq<Point>, pick: nat)
    requires CanStep(st, draws, pick)
    ensures var head := Move(st.snake[0], st.nextDirection);
      Step(st, draws, pick).Crashed? <==> !InBounds(head) || head in st.snake
    ensures Step(st, draws, pick).Crashed? ==> Step(st, draws, pick).state == Reset(draws)
  {
  }

  /**
   * A tick that does not crash commits the buffered direction and puts the
   * head one cell from the old head in it; the rest of the body follows.
   * Eating grows the snake by exactly one and scores exactly 10; otherwise
   * the tail is dropped and the length, the score and the apple stay.
   */
  lemma TickMovesOneCell(st: GameState, draws: seq<Point>, pick: nat)
    requires CanStep(st, draws, pick)
    ensures var r := Step(st, draws, pick).state;
      !Step(st, draws, pick).Crashed? ==>
        && r.direction == r.nextDirection == st.nextDirection
        && r.snake[0] == Move(st.snake[0], st.nextDirection)
        && Adjacent(r.snake[0], st.snake[0])
    ensures var r := Step(st, draws, pick).state;
      Step(st, draws, pick).Ate? ==>
        && |r.snake| == |st.snake| + 1 && r.snake[1..] == st.snake
        && r.score == st.score + ApplePoints
        && r.apple != st.apple && InBounds(r.apple) && r.apple !in r.snake
    ensures var r := Step(st, draws, pick).state;
      Step(st, draws, pick).Moved? ==>
        && |r.snake| == |st.snake| && r.snake[1..] == st.snake[..|st.snake| - 1]
        && r.score == st.score && r.apple == st.apple
        && r.level == st.level && r.speed == st.speed
  {
    var head := Move(st.snake[0], st.nextDirection);
    var grown := [head] + st.snake;
    if InBounds(head) && head !in st.snake {
      if head == st.apple {
        assert FirstFree(draws, grown).Some?;
        var fed := st.(snake := grown, direction := st.nextDirection, score := st.score + ApplePoints,
                       apple := FirstFree(draws, grown).value);
        assert Step(st, draws, pick) == Ate(LeveledUp(fed, pick));
        LevelUpRestoresRule(fed, pick);
        assert grown[1..] == st.snake;
      } else {
        assert Step(st, draws, pick) == Moved(st.(snake := grown[..|grown| - 1], direction := st.nextDirection));
        assert grown[..|grown| - 1][1..] == st.snake[..|st.snake| - 1];
      }
    }
  }

  /**
   * Between crashes the level never falls and the interval never grows;
   * a level-up raises the level by exactly one and changes the snake's
   * colour to a different one of the palette.
   */
  lemma TickIsMonotone(st: GameState, draws: seq<Point>, pick: nat)
    requires CanStep(st, draws, pick)
    ensures var r := Step(st, draws, pick).state;
      !Step(st, draws, pick).Crashed? ==>
        && st.level <= r.level <= st.level + 1
        && MinSpeed <= r.speed <= st.speed
        && (r.level == st.level + 1 ==> r.color != st.color)
        && (r.level == st.level ==> r.color == st.color && r.speed == st.speed)
  {
    var head := Move(st.snake[0], st.nextDirection);
    var grown := [head] + st.snake;
    if InBounds(head) && head !in st.snake && head == st.apple {
      assert FirstFree(draws, grown).Some?;
      var fed := st.(snake := grown, direction := st.nextDirection, score := st.score + ApplePoints,
                     apple := FirstFree(draws, grown).value);
      assert Step(st, draws, pick) == Ate(LeveledUp(fed, pick));
      LevelUpRestoresRule(fed, pick);
    }
  }

  /**
   * The first tick of a round whose apple lies right in front of the head
   * eats it: ten points and a snake of four whose head is on the old apple.
   */
  lemma ExampleFirstApple(draws: seq<Point>)
    requires RandomStream(draws)
    ensures var st := InitialState.(apple := Point(21, 25));
      var o := Step(st, draws, 0);
      o.Ate? && o.state.score == 10 && |o.state.snake| == 4 && o.state.snake[0] == Point(21, 25)
  {
    StreamFindsFreeCell(draws, [Point(21, 25)] + InitialSnake);
  }
}
