/** The game session as the page keeps it: module-level variables updated in place
    by `handleObstacles`, `animate`, `startGame`, `gameOver`, `setView`,
    `handleInput` and the event listeners. Each method is proved to leave exactly
    the state the matching function of module Machine computes. */
module Game {
  import opened Physics
  import opened Phases
  import opened Obstacles
  import opened Machine

  class Session {
    var gameState: Phase
    var score: nat
    var highScore: nat
    var gameSpeed: real
    /** Whether an animation frame is requested (`requestAnimationFrame` not yet
        cancelled or run). */
    var scheduled: bool
    var obstacles: seq<Obstacle>
    var currentView: View
    const dino: Dino
    const canvasWidth: nat

    /** The counters as a value. */
    function Counters(): Status
      reads this
    {
      Status(gameState, score, highScore, gameSpeed, scheduled)
    }

    /** The whole session as a value. */
    function Snap(): Snapshot
      reads this, dino
    {
      Snapshot(Counters(), dino.State(), obstacles, currentView, canvasWidth)
    }

    /** Start-up, including the initial `setView('compact')`. */
    constructor (canvasWidth: nat)
      ensures fresh(dino)
      ensures Snap() == Initial(canvasWidth)
      ensures Inv(Snap())
    {
      gameState := Idle;
      score := 0;
      highScore := 0;
      gameSpeed := BASE_SPEED;
      scheduled := false;
      obstacles := [];
      currentView := Compact;
      dino := new Dino();
      this.canvasWidth := canvasWidth;
      new;
      InitialInv(canvasWidth);
    }

    /** `createObstacle()`: push a fresh obstacle at the right edge. */
    method CreateObstacle()
      modifies this
      ensures obstacles == old(obstacles) + [NewObstacle(canvasWidth)]
      ensures Counters() == old(Counters()) && currentView == old(currentView)
    {
      obstacles := obstacles + [NewObstacle(canvasWidth)];
    }

    /** `gameOver()`. */
    method GameOver()
      modifies this
      ensures Counters() == Ended(old(Counters()))
      ensures obstacles == old(obstacles) && currentView == old(currentView)
    {
      gameState := Gameover;
      scheduled := false;
      if score > highScore {
        highScore := score;
      }
    }

    /** The callback `handleObstacles()` runs on each obstacle, here on obstacle i:
        move it left by the current speed, call `gameOver()` on a collision, and
        retire and score it once it is off screen. */
    method VisitObstacle(i: nat)
      requires i < |obstacles|
      modifies this
      ensures |obstacles| == |old(obstacles)|
      ensures Visit(old(Counters()), old(obstacles[i]), dino.y) == Pass(Counters(), [obstacles[i]])
      ensures obstacles == old(obstacles)[i := obstacles[i]]
      ensures currentView == old(currentView)
    {
      var obstacle := obstacles[i];
      obstacle := obstacle.(x := obstacle.x - gameSpeed);
      obstacles := obstacles[i := obstacle];
      if DINO_X < obstacle.x + obstacle.width &&
         DINO_X + DINO_WIDTH > obstacle.x &&
         dino.y < obstacle.y + obstacle.height &&
         dino.y + DINO_HEIGHT > obstacle.y
      {
        GameOver();
      }
      if obstacle.x + obstacle.width < 0.0 {
        obstacle := obstacle.(markedForDeletion := true);
        obstacles := obstacles[i := obstacle];
        score := score + 1;
        if score % SPEED_EVERY == 0 {
          gameSpeed := gameSpeed + SPEED_STEP;
        }
      }
    }

    /** The `forEach` of `handleObstacles()`: the callback on every obstacle, in
        list order. */
    method VisitAll()
      modifies this
      ensures Sweep(old(Counters()), old(obstacles), dino.y) == Pass(Counters(), obstacles)
      ensures currentView == old(currentView)
    {
      ghost var t0 := Counters();
      ghost var start := obstacles;
      var i := 0;
      while i < |obstacles|
        invariant |obstacles| == |start| && 0 <= i <= |start|
        invariant Sweep(t0, start[..i], dino.y) == Pass(Counters(), obstacles[..i])
        invariant obstacles[i..] == start[i..]
        invariant currentView == old(currentView)
      {
        ghost var prefix := obstacles[..i];
        assert obstacles[i] == start[i];
        VisitObstacle(i);
        SweepSnoc(t0, start[..i], start[i], dino.y);
        assert start[..i + 1] == start[..i] + [start[i]];
        assert obstacles[..i + 1] == prefix + [obstacles[i]];
        assert obstacles[i + 1..] == start[i + 1..];
        i := i + 1;
      }
      assert start[..|start|] == start;
      assert obstacles[..|obstacles|] == obstacles;
    }

    /** `handleObstacles()`: the spawn step, the pass over the list and the filter.
        `j` is the jitter drawn for the gap and `coin` the outcome of the 2% draw. */
    method HandleObstacles(j: Jitter, coin: bool)
      modifies this
      ensures var r := Sweep(old(Counters()), Spawned(old(obstacles), canvasWidth, j, coin), dino.y);
        Counters() == r.status && obstacles == Keep(r.moved)
      ensures currentView == old(currentView)
    {
      if (|obstacles| == 0 || canvasWidth as real - obstacles[|obstacles| - 1].x > MIN_OBSTACLE_GAP + j) && coin {
        CreateObstacle();
      }
      VisitAll();
      obstacles := KeepUnmarked(obstacles);
    }

    /** `animate()`: a no-op unless playing; otherwise move the dino, run the
        obstacle pass and request the next frame. */
    method Animate(d: Draw)
      modifies this, dino
      ensures Snap() == Tick(old(Snap()), d)
    {
      if gameState != Playing {
        return;
      }
      dino.Update();
      HandleObstacles(d.jitter, d.coin);
      scheduled := true;
    }

    /** `startGame()`: reset the counters and the list, then run a tick at once. */
    method StartGame(d: Draw)
      modifies this, dino
      ensures Snap() == Start(old(Snap()), d)
    {
      gameState := Playing;
      score := 0;
      gameSpeed := BASE_SPEED;
      obstacles := [];
      Animate(d);
    }

    /** `setView(view)`: expanded starts or resumes the game, minimal pauses it. */
    method SetView(view: View, d: Draw)
      modifies this, dino
      ensures Snap() == Machine.SetView(old(Snap()), view, d)
    {
      currentView := view;
      if view == Expanded {
        if gameState == Idle || gameState == Gameover {
          StartGame(d);
        } else if gameState == Paused {
          gameState := Playing;
          Animate(d);
        }
      } else if view == Minimal {
        if gameState == Playing {
          gameState := Paused;
          scheduled := false;
        }
      }
    }

    /** `handleInput(e)`. */
    method HandleInput(e: Input, d: Draw)
      modifies this, dino
      ensures Snap() == Machine.HandleInput(old(Snap()), e, d)
    {
      if currentView == Expanded {
        if e.KeyDown? && e.code != JUMP_KEY {
          return;
        }
        if gameState == Playing {
          dino.Jump();
        } else if gameState == Gameover {
          StartGame(d);
        }
      }
    }

    /** The browser runs the requested frame. */
    method OnFrame(d: Draw)
      modifies this, dino
      ensures Snap() == Step(old(Snap()), Frame, d)
      ensures old(Inv(Snap())) ==> Inv(Snap())
    {
      StepInv(Snap(), Frame, d);
      if scheduled {
        scheduled := false;
        Animate(d);
      }
    }

    /** The window's keydown listener. */
    method OnKeyDown(code: string, d: Draw)
      modifies this, dino
      ensures Snap() == Step(old(Snap()), Key(code), d)
      ensures old(Inv(Snap())) ==> Inv(Snap())
    {
      StepInv(Snap(), Key(code), d);
      HandleInput(KeyDown(code), d);
    }

    /** The widget's touchstart listener. */
    method OnTouchStart(d: Draw)
      modifies this, dino
      ensures Snap() == Step(old(Snap()), Touch, d)
      ensures old(Inv(Snap())) ==> Inv(Snap())
    {
      StepInv(Snap(), Touch, d);
      if currentView == Expanded {
        HandleInput(TouchStart, d);
      }
    }

    /** The widget's click listener: expand from compact or minimal. */
    method OnNotchClick(d: Draw)
      modifies this, dino
      ensures Snap() == Step(old(Snap()), NotchClick, d)
      ensures old(Inv(Snap())) ==> Inv(Snap())
    {
      StepInv(Snap(), NotchClick, d);
      if currentView == Compact || currentView == Minimal {
        SetView(Expanded, d);
      }
    }

    /** The page's click listener: a click outside the expanded widget collapses it
        to minimal. `insideNotch` is the result of the containment test. */
    method OnPageClick(insideNotch: bool, d: Draw)
      modifies this, dino
      ensures Snap() == Step(old(Snap()), PageClick(insideNotch), d)
      ensures old(Inv(Snap())) ==> Inv(Snap())
    {
      StepInv(Snap(), PageClick(insideNotch), d);
      if currentView == Expanded {
        if !insideNotch {
          SetView(Minimal, d);
        }
      }
    }
  }
}
