/**
 * The `SnakeGame` object: its fields, the key handler, the run/pause guards
 * and the in-place `update`. A method that ticks is proved to leave the
 * fields equal to Rules.Step of the fields before it, an arrow key to buffer
 * the turn Rules.Steer allows, and both to keep Rules.Inv. GameOver and
 * ResetGame set the fields to Rules.Reset, which satisfies Rules.Inv from
 * any state.
 */
module Game {
  import opened Seqs
  import opened Board
  import opened Rules

  class SnakeGame {
    var gameRunning: bool
    var gamePaused: bool
    var score: int
    var level: int
    var speed: real
    var snake: seq<Point>
    var direction: Point
    var nextDirection: Point
    var apple: Point
    var currentSnakeColor: SnakeColor

    /** The fields `update` works on, as one value. */
    function Current(): GameState
      reads this
    {
      GameState(snake, direction, nextDirection, apple, score, level, speed, currentSnakeColor)
    }

    ghost predicate Valid()
      reads this
    {
      Inv(Current())
    }

    /**
     * The object is valid, the random cells `draws` and colour index `pick`
     * are ones `Math.random` could supply to the next tick, and that tick
     * returns (it does not hang in the apple loop).
     */
    ghost predicate CanTick(draws: seq<Point>, pick: nat)
      reads this
    {
      CanStep(Current(), draws, pick)
    }

    /** The fields are one tick on from `st`, and a crash has stopped the game. */
    ghost predicate TickedFrom(st: GameState, draws: seq<Point>, pick: nat)
      requires CanStep(st, draws, pick)
      reads this
    {
      var o := Step(st, draws, pick);
      Current() == o.state && gameRunning == !o.Crashed?
    }

    constructor ()
      ensures Valid() && Current() == InitialState
      ensures !gameRunning && !gamePaused
    {
      gameRunning := false;
      gamePaused := false;
      score := 0;
      level := 1;
      speed := InitialSpeed;
      snake := InitialSnake;
      direction := Right;
      nextDirection := Right;
      apple := Point(30, 20);
      currentSnakeColor := InitialColor;
      InitialStateIsValid();
    }

    /**
     * The `keydown` listener. Space starts a stopped game; while the game
     * runs (paused or not) an arrow buffers a turn off the committed axis
     * and Space toggles the pause. Every other key does nothing.
     */
    method HandleKey(key: Key, draws: seq<Point>, pick: nat)
      requires CanTick(draws, pick)
      modifies this
      ensures Valid()
      ensures !old(gameRunning) && key == Space ==>
        !gamePaused && TickedFrom(old(Current()), draws, pick)
      ensures !old(gameRunning) && key != Space ==> unchanged(this)
      ensures old(gameRunning) && key != Space ==>
        && Current() == old(Current()).(nextDirection := Steer(old(direction), old(nextDirection), key))
        && gameRunning && gamePaused == old(gamePaused)
      ensures old(gameRunning) && key == Space ==> gamePaused == !old(gamePaused)
      ensures old(gameRunning) && key == Space && gamePaused ==>
        Current() == old(Current()) && gameRunning
      ensures old(gameRunning) && key == Space && !gamePaused ==>
        TickedFrom(old(Current()), draws, pick)
    {
      if !gameRunning && key == Space {
        StartGame(draws, pick);
        return;
      }
      if gameRunning {
        ghost var st := Current();
        match key {
          case ArrowUp =>
            if direction.y == 0 { nextDirection := Point(0, -1); }
          case ArrowDown =>
            if direction.y == 0 { nextDirection := Point(0, 1); }
          case ArrowLeft =>
            if direction.x == 0 { nextDirection := Point(-1, 0); }
          case ArrowRight =>
            if direction.x == 0 { nextDirection := Point(1, 0); }
          case Space =>
            TogglePause(draws, pick);
          case OtherKey =>
        }
        if key != Space {
          ghost var r := st.(nextDirection := Steer(st.direction, st.nextDirection, key));
          SteerKeepsInv(st, key);
          assert Current() == r;
        }
      }
    }

    /** `startGame`: run, unpause, and enter the loop, which ticks at once. */
    method StartGame(draws: seq<Point>, pick: nat)
      requires CanTick(draws, pick)
      modifies this
      ensures Valid() && !gamePaused
      ensures TickedFrom(old(Current()), draws, pick)
    {
      gameRunning := true;
      gamePaused := false;
      GameLoop(draws, pick);
    }

    /** `togglePause`: flip the pause; resuming re-enters the loop, which ticks at once. */
    method TogglePause(draws: seq<Point>, pick: nat)
      requires CanTick(draws, pick)
      modifies this
      ensures Valid() && gamePaused == !old(gamePaused)
      ensures gamePaused || !old(gameRunning) ==>
        Current() == old(Current()) && gameRunning == old(gameRunning)
      ensures !gamePaused && old(gameRunning) ==> TickedFrom(old(Current()), draws, pick)
    {
      gamePaused := !gamePaused;
      if !gamePaused {
        GameLoop(draws, pick);
      }
    }

    /** One turn of `gameLoop`: tick only while running and not paused. */
    method GameLoop(draws: seq<Point>, pick: nat)
      requires CanTick(draws, pick)
      modifies this
      ensures Valid() && gamePaused == old(gamePaused)
      ensures old(gameRunning) && !old(gamePaused) ==> TickedFrom(old(Current()), draws, pick)
      ensures !old(gameRunning) || old(gamePaused) ==> unchanged(this)
    {
      if !gameRunning || gamePaused {
        return;
      }
      Update(draws, pick);
    }

    /** `update`: one tick, changing the snake in place. */
    method Update(draws: seq<Point>, pick: nat)
      requires CanTick(draws, pick)
      modifies this
      ensures Valid()
      ensures Current() == Step(old(Current()), draws, pick).state
      ensures gameRunning == (old(gameRunning) && !Step(old(Current()), draws, pick).Crashed?)
      ensures gamePaused == old(gamePaused)
    {
      ghost var st := Current();
      ghost var o := Step(st, draws, pick);
      direction := nextDirection;
      var head := Move(snake[0], direction);
      if !InBounds(head) {
        GameOver(draws);
        return;
      }
      if head in snake {
        GameOver(draws);
        return;
      }
      snake := [head] + snake;
      if head == apple {
        EatApple(draws, pick);
        assert o == Ate(Current());
      } else {
        snake := snake[..|snake| - 1];
        assert o == Moved(Current());
      }
      StepPreservesInv(st, draws, pick);
    }

    /** The apple branch of `update`: ten points, a new apple, then `checkLevelUp`. */
    method EatApple(draws: seq<Point>, pick: nat)
      requires FirstFree(draws, snake).Some? && pick < |AvailableColors(currentSnakeColor)|
      modifies this`score, this`apple, this`level, this`speed, this`currentSnakeColor
      ensures Current() == LeveledUp(old(Current()).(score := old(score) + ApplePoints,
                                                     apple := FirstFree(draws, snake).value), pick)
    {
      score := score + ApplePoints;
      GenerateApple(draws);
      CheckLevelUp(pick);
    }

    /** `generateApple`: put the apple on the first drawn cell off the snake. */
    method GenerateApple(draws: seq<Point>)
      requires FirstFree(draws, snake).Some?
      modifies this`apple
      ensures Some(apple) == FirstFree(draws, snake)
    {
      apple := DrawApple(snake, draws);
    }

    /** `checkLevelUp`: on reaching a new level, speed up and change colour. */
    method CheckLevelUp(pick: nat)
      requires pick < |AvailableColors(currentSnakeColor)|
      modifies this`level, this`speed, this`currentSnakeColor
      ensures Current() == LeveledUp(old(Current()), pick)
    {
      ghost var st := Current();
      var newLevel := LevelFor(score);
      if newLevel > level {
        level := newLevel;
        IncreaseSpeed();
        ChangeSnakeColor(pick);
        assert Current() == st.(level := newLevel, speed := NextSpeed(st.speed),
                                color := AvailableColors(st.color)[pick]);
      }
    }

    /** `increaseSpeed` */
    method IncreaseSpeed()
      modifies this`speed
      ensures speed == NextSpeed(old(speed))
      ensures MinSpeed <= speed && (old(speed) >= MinSpeed ==> speed <= old(speed))
    {
      speed := NextSpeed(speed);
    }

    /** `changeSnakeColor`, with `pick` for the random index into the other colours. */
    method ChangeSnakeColor(pick: nat)
      requires pick < |AvailableColors(currentSnakeColor)|
      modifies this`currentSnakeColor
      ensures currentSnakeColor == AvailableColors(old(currentSnakeColor))[pick]
      ensures currentSnakeColor != old(currentSnakeColor)
    {
      var available := AvailableColors(currentSnakeColor);
      assert available[pick] in available;
      currentSnakeColor := available[pick];
    }

    /** `gameOver`: stop the game and reset the round. */
    method GameOver(draws: seq<Point>)
      requires RandomStream(draws)
      modifies this
      ensures Valid() && Current() == Reset(draws)
      ensures !gameRunning && gamePaused == old(gamePaused)
    {
      gameRunning := false;
      ResetGame(draws);
    }

    /** `resetGame`: every field back to its initial value and a new apple. */
    method ResetGame(draws: seq<Point>)
      requires RandomStream(draws)
      modifies this
      ensures Valid() && Current() == Reset(draws)
      ensures gameRunning == old(gameRunning) && gamePaused == old(gamePaused)
    {
      score := 0;
      level := 1;
      speed := InitialSpeed;
      snake := InitialSnake;
      direction := Right;
      nextDirection := Right;
      currentSnakeColor := InitialColor;
      StreamFindsFreeCell(draws, snake);
      GenerateApple(draws);
      ghost var st := Reset(draws);
      assert Inv(st) && Current() == st;
    }
  }
}
