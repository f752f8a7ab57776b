/** The whole game session as a value, and every transition of the game as a
    function on it: the frame tick (`animate`), starting a game, the view state
    machine (`setView`), the input router (`handleInput`) and the event handlers.
    The class Session in module Game is proved to follow these functions exactly. */
module Machine {
  import opened Physics
  import opened Phases
  import opened Obstacles

  /** Everything the game keeps: counters, the dino, the obstacle list, the view
      and the (fixed) canvas width. */
  datatype Snapshot = Snapshot(status: Status, dino: Motion, obstacles: seq<Obstacle>, view: View, canvasWidth: nat)

  /** The two random draws of one tick: the gap jitter and the 2% spawn coin. */
  datatype Draw = Draw(jitter: Jitter, coin: bool)

  /** What reaches `handleInput`. */
  datatype Input = KeyDown(code: string) | TouchStart

  /** What the browser delivers: a requested animation frame, a key press
      anywhere, a touch on the widget, a click on the widget, and a click on the
      page (with the answer to the "inside the widget" test). The widget's click
      listener stops propagation, so a click inside the widget never reaches the
      page listener and `PageClick(true)` does not occur; it is kept because the
      page listener tests for it and does nothing. */
  datatype Event = Frame | Key(code: string) | Touch | NotchClick | PageClick(insideNotch: bool)

  const JUMP_KEY: string := "Space"

  /** The session after start-up: idle, collapsed to the compact view. */
  function Initial(canvasWidth: nat): Snapshot
  {
    Snapshot(Status(Idle, 0, 0, BASE_SPEED, false), Motion(GROUND_Y, 0.0), [], Compact, canvasWidth)
  }

  /** `animate()`: nothing unless playing; otherwise one tick of the dino, the
      spawn step, the obstacle pass and the filter, then the next frame request. */
  function Tick(s: Snapshot, d: Draw): Snapshot
  {
    if s.status.phase != Playing then s
    else
      var m := Updated(s.dino);
      var r := Sweep(s.status, Spawned(s.obstacles, s.canvasWidth, d.jitter, d.coin), m.y);
      s.(status := r.status.(scheduled := true), dino := m, obstacles := Keep(r.moved))
  }

  /** The assignments `startGame()` makes before it calls `animate()`. */
  function Reset(s: Snapshot): Snapshot
  {
    s.(status := s.status.(phase := Playing, score := 0, gameSpeed := BASE_SPEED), obstacles := [])
  }

  /** `startGame()`: reset, then one immediate tick. */
  function Start(s: Snapshot, d: Draw): Snapshot
  {
    Tick(Reset(s), d)
  }

  /** `setView(view)`. */
  function SetView(s: Snapshot, v: View, d: Draw): Snapshot
  {
    var s1 := s.(view := v);
    match v
    case Expanded =>
      if s.status.phase == Idle || s.status.phase == Gameover then Start(s1, d)
      else if s.status.phase == Paused then Tick(s1.(status := s.status.(phase := Playing)), d)
      else s1
    case Minimal =>
      if s.status.phase == Playing then s1.(status := s.status.(phase := Paused, scheduled := false))
      else s1
    case Compact => s1
  }

  /** `handleInput(e)`. */
  function HandleInput(s: Snapshot, i: Input, d: Draw): Snapshot
  {
    if s.view != Expanded then s
    else if i.KeyDown? && i.code != JUMP_KEY then s
    else if s.status.phase == Playing then s.(dino := Jumped(s.dino))
    else if s.status.phase == Gameover then Start(s, d)
    else s
  }

  /** One browser event and the listener it reaches. A frame runs only if one was
      requested, and consumes the request. */
  function Step(s: Snapshot, e: Event, d: Draw): Snapshot
  {
    match e
    case Frame =>
      if s.status.scheduled then Tick(s.(status := s.status.(scheduled := false)), d) else s
    case Key(code) => HandleInput(s, KeyDown(code), d)
    case Touch => if s.view == Expanded then HandleInput(s, TouchStart, d) else s
    case NotchClick => if s.view == Compact || s.view == Minimal then SetView(s, Expanded, d) else s
    case PageClick(inside) => if s.view == Expanded && !inside then SetView(s, Minimal, d) else s
  }

  /** A sequence of events, each with the random draws it may consume. */
  function Run(s: Snapshot, evs: seq<(Event, Draw)>): Snapshot
    decreases |evs|
  {
    if evs == [] then s else Run(Step(s, evs[0].0, evs[0].1), evs[1..])
  }

  /** The events that begin a new game from the current state. */
  predicate StartsNewGame(s: Snapshot, e: Event)
  {
    match e
    case Key(code) => s.view == Expanded && code == JUMP_KEY && s.status.phase == Gameover
    case Touch => s.view == Expanded && s.status.phase == Gameover
    case NotchClick =>
      (s.view == Compact || s.view == Minimal) && (s.status.phase == Idle || s.status.phase == Gameover)
    case _ => false
  }

  /** The part of the invariant about the simulation itself: a sound dino, the
      speed tied to the score, and obstacles as the game creates them, in
      left-to-right order and more than the minimum gap apart. */
  ghost predicate Core(s: Snapshot)
  {
    Sound(s.dino) &&
    s.status.gameSpeed == BASE_SPEED + SPEED_STEP * ((s.status.score / SPEED_EVERY) as real) &&
    (forall k :: 0 <= k < |s.obstacles| ==> WellShaped(s.obstacles[k])) &&
    Spaced(s.obstacles)
  }

  /** The part of the invariant tying phase, view and frame request together. */
  ghost predicate Coupled(s: Snapshot)
  {
    (s.status.phase == Idle <==> s.view == Compact) &&
    (s.status.phase == Playing ==> s.view == Expanded && s.status.scheduled) &&
    (s.status.phase == Paused ==> s.view == Minimal && !s.status.scheduled) &&
    (s.status.scheduled ==> s.status.phase == Playing || s.status.phase == Gameover) &&
    (s.status.phase == Gameover ==> s.status.highScore >= s.status.score)
  }

  ghost predicate Inv(s: Snapshot)
  {
    Core(s) && Coupled(s)
  }

  // ---------------------------------------------------------------- the tick

  /** A tick from a playing state keeps the invariant and ends playing or over. */
  lemma TickKeepsInv(s: Snapshot, d: Draw)
    requires Core(s) && s.status.phase == Playing && s.view == Expanded
    ensures Inv(Tick(s, d))
    ensures Tick(s, d).status.phase == Playing || Tick(s, d).status.phase == Gameover
  {
    var m := Updated(s.dino);
    SoundKept(s.dino);
    var sp := Spawned(s.obstacles, s.canvasWidth, d.jitter, d.coin);
    assert forall k :: 0 <= k < |sp| ==> WellShaped(sp[k]);
    var r := Sweep(s.status, sp, m.y);
    var kept := Keep(r.moved);
    var t := Tick(s, d);
    assert t == s.(status := r.status.(scheduled := true), dino := m, obstacles := kept);
    SweepCounters(s.status, sp, m.y);
    SpeedTracksScore(s.status.score, s.status.gameSpeed, r.status.score, r.status.gameSpeed);
    SweepPhase(s.status, sp, m.y);
    if exists k :: 0 <= k < |sp| && Collides(m.y, r.moved[k]) {
      assert r.status.phase == Gameover;
    } else {
      assert r.status.phase == Playing;
    }
    TickObstacles(s, d);
    TickGameoverHigh(s, d);
    assert Core(t);
  }

  /** The obstacles a playing tick leaves are game-shaped and spaced. */
  lemma TickObstacles(s: Snapshot, d: Draw)
    requires Core(s) && s.status.phase == Playing
    ensures var t := Tick(s, d);
      (forall k :: 0 <= k < |t.obstacles| ==> WellShaped(t.obstacles[k])) && Spaced(t.obstacles)
  {
    var m := Updated(s.dino);
    var sp := Spawned(s.obstacles, s.canvasWidth, d.jitter, d.coin);
    assert forall k :: 0 <= k < |sp| ==> WellShaped(sp[k]);
    var r := Sweep(s.status, sp, m.y);
    assert Tick(s, d).obstacles == Keep(r.moved);
    SweepKeepsShape(s.status, sp, m.y);
    SpawnKeepsSpaced(s.obstacles, s.canvasWidth, d.jitter, d.coin);
    SpacedPass(s.status, sp, m.y);
    KeepSpaced(r.moved);
  }

  /** A playing tick that ends the game leaves a high score at least the score. */
  lemma TickGameoverHigh(s: Snapshot, d: Draw)
    requires Core(s) && s.status.phase == Playing
    ensures Tick(s, d).status.phase == Gameover ==> Tick(s, d).status.highScore >= Tick(s, d).status.score
  {
    TickCollisionEndsPass(s, d);
    SweepGameoverHigh(s.status, Spawned(s.obstacles, s.canvasWidth, d.jitter, d.coin), Updated(s.dino).y);
  }

  /** Speed bookkeeping: a step per multiple of SPEED_EVERY crossed keeps the speed
      equal to the base plus one step per multiple reached. */
  lemma SpeedTracksScore(score0: nat, speed0: real, score1: nat, speed1: real)
    requires speed0 == BASE_SPEED + SPEED_STEP * ((score0 / SPEED_EVERY) as real)
    requires speed1 == speed0 + SPEED_STEP * ((score1 / SPEED_EVERY - score0 / SPEED_EVERY) as real)
    ensures speed1 == BASE_SPEED + SPEED_STEP * ((score1 / SPEED_EVERY) as real)
  {
    var a, b := score0 / SPEED_EVERY, score1 / SPEED_EVERY;
    assert (b - a) as real == b as real - a as real;
  }

  /** The filter after a pass over obstacles as the game creates them leaves only
      such obstacles. */
  lemma SweepKeepsShape(t: Status, obs: seq<Obstacle>, dinoY: real)
    requires forall k :: 0 <= k < |obs| ==> WellShaped(obs[k])
    ensures forall o :: o in Keep(Sweep(t, obs, dinoY).moved) ==> WellShaped(o)
  {
    var r := Sweep(t, obs, dinoY);
    SweepMoves(t, obs, dinoY);
    forall o | o in Keep(r.moved)
      ensures WellShaped(o)
    {
      KeepMembers(r.moved, o);
    }
  }

  /** Within one pass, every obstacle after one that hits the dino is still on
      screen and misses the dino. */
  ghost predicate CollisionEndsPass(t: Status, obs: seq<Obstacle>, dinoY: real)
  {
    var r := Sweep(t, obs, dinoY);
    forall k, j :: 0 <= k < j < |obs| && Collides(dinoY, r.moved[k]) ==>
      !OffScreen(r.moved[j]) && !Collides(dinoY, r.moved[j])
  }

  /** Because of the spawn gap, a playing tick over obstacles as the game keeps
      them has at most one collision, and no obstacle scores after it: the
      obstacle that hits the dino lies between x = 5 and x = 40, so every later
      one lies beyond x = 155. In reachable states, gameOver() therefore runs at
      most once per tick, and the score it compares with the high score is the
      final score of the tick (SweepGameoverHigh). */
  lemma TickCollisionEndsPass(s: Snapshot, d: Draw)
    requires Core(s) && s.status.phase == Playing
    ensures CollisionEndsPass(s.status, Spawned(s.obstacles, s.canvasWidth, d.jitter, d.coin), Updated(s.dino).y)
  {
    var sp := Spawned(s.obstacles, s.canvasWidth, d.jitter, d.coin);
    var y := Updated(s.dino).y;
    var r := Sweep(s.status, sp, y);
    assert forall k :: 0 <= k < |sp| ==> WellShaped(sp[k]);
    SpawnKeepsSpaced(s.obstacles, s.canvasWidth, d.jitter, d.coin);
    SpacedPass(s.status, sp, y);
    SweepMoves(s.status, sp, y);
    forall k, j | 0 <= k < j < |sp| && Collides(y, r.moved[k])
      ensures !OffScreen(r.moved[j]) && !Collides(y, r.moved[j])
    {
      assert r.moved[k].x > DINO_X - OBSTACLE_WIDTH;
      assert !r.moved[k].markedForDeletion;
      assert r.moved[j].x - r.moved[k].x > MIN_OBSTACLE_GAP;
    }
  }

  /** A pass that starts playing and has nothing after a collision ends, if the
      game is over, with a high score at least the final score. */
  lemma {:induction false} SweepGameoverHigh(t: Status, obs: seq<Obstacle>, dinoY: real)
    requires t.phase == Playing && CollisionEndsPass(t, obs, dinoY)
    ensures var r := Sweep(t, obs, dinoY).status;
      r.phase == Gameover ==> r.highScore >= r.score
    decreases |obs|
  {
    if obs != [] {
      var n := |obs| - 1;
      var init, o := obs[..n], obs[n];
      var p := Sweep(t, init, dinoY);
      var v := Visit(p.status, o, dinoY);
      var r := Sweep(t, obs, dinoY);
      assert r == Pass(v.status, p.moved + v.moved);
      assert forall i :: 0 <= i < n ==> r.moved[i] == p.moved[i];
      assert CollisionEndsPass(t, init, dinoY);
      SweepGameoverHigh(t, init, dinoY);
      var m := o.(x := o.x - p.status.gameSpeed);
      assert r.moved[n].x == m.x && r.moved[n].width == m.width;
      if Collides(dinoY, m) {
        assert !OffScreen(m);
      } else if p.status.phase == Gameover {
        SweepPhase(t, init, dinoY);
        var k :| 0 <= k < n && Collides(dinoY, p.moved[k]);
        assert Collides(dinoY, r.moved[k]);
        assert !OffScreen(r.moved[n]);
      }
    }
  }

  /** A tick from any state other than playing changes nothing. */
  lemma TickGuard(s: Snapshot, d: Draw)
    requires s.status.phase != Playing
    ensures Tick(s, d) == s
  {
  }

  /** In a tick the score rises by exactly the number of obstacles removed, and the
      survivors are exactly the moved obstacles still on screen, in order. */
  lemma TickScoresRemovals(s: Snapshot, d: Draw)
    requires Core(s) && s.status.phase == Playing
    ensures var sp := Spawned(s.obstacles, s.canvasWidth, d.jitter, d.coin);
      var r := Sweep(s.status, sp, Updated(s.dino).y);
      var t := Tick(s, d);
      t.obstacles == Visible(r.moved) &&
      t.status.score == s.status.score + (|sp| - |t.obstacles|)
  {
    var sp := Spawned(s.obstacles, s.canvasWidth, d.jitter, d.coin);
    assert forall k :: 0 <= k < |sp| ==> WellShaped(sp[k]);
    SweepScore(s.status, sp, Updated(s.dino).y);
    SweepSurvivors(s.status, sp, Updated(s.dino).y);
  }

  // ---------------------------------------------------------------- starting

  /** A new game begins at score 0 and base speed with no obstacles, then runs its
      first tick at once: the dino keeps moving from where it was (it is not
      reset), at most the one freshly spawned obstacle is on screen, and the game
      is playing unless that obstacle hits the dino straight away, which a canvas
      at least 45 wide rules out. The high score is untouched. */
  lemma StartResets(s: Snapshot, d: Draw)
    ensures var r := Start(s, d);
      var spawned := NewObstacle(s.canvasWidth).(x := s.canvasWidth as real - BASE_SPEED);
      r.status.score == 0 && r.status.gameSpeed == BASE_SPEED &&
      r.status.highScore == s.status.highScore && r.status.scheduled &&
      r.dino == Updated(s.dino) && r.view == s.view &&
      r.obstacles == (if d.coin then [spawned] else []) &&
      (r.status.phase == Gameover <==> d.coin && Collides(r.dino.y, spawned)) &&
      (r.status.phase != Gameover ==> r.status.phase == Playing) &&
      (s.canvasWidth >= 45 ==> r.status.phase == Playing)
  {
    var s0 := Reset(s);
    var m := Updated(s.dino);
    UpdateLandsOrFalls(s.dino);
    var sp := Spawned([], s.canvasWidth, d.jitter, d.coin);
    var spawned := NewObstacle(s.canvasWidth).(x := s.canvasWidth as real - BASE_SPEED);
    assert Sweep(s0.status, [], m.y) == Pass(s0.status, []);
    if d.coin {
      assert sp == [NewObstacle(s.canvasWidth)];
      assert sp[..0] == [];
      assert !OffScreen(spawned);
      var r := Sweep(s0.status, sp, m.y);
      assert r.moved == [spawned];
      assert [spawned][..0] == [];
      assert Keep(r.moved) == [spawned];
      CollisionZone(m.y, spawned.(markedForDeletion := false));
    } else {
      assert sp == [];
    }
  }

  // ---------------------------------------------------------------- views

  /** Entering the minimal view pauses a running game and keeps all of its state;
      in every other phase only the view changes. */
  lemma MinimalPausesOnlyPlaying(s: Snapshot, d: Draw)
    ensures var r := SetView(s, Minimal, d);
      r.view == Minimal && r.dino == s.dino && r.obstacles == s.obstacles &&
      r.status.score == s.status.score && r.status.gameSpeed == s.status.gameSpeed &&
      r.status.highScore == s.status.highScore &&
      (s.status.phase == Playing ==> r.status.phase == Paused && !r.status.scheduled) &&
      (s.status.phase != Playing ==> r.status == s.status)
  {
  }

  /** Entering the expanded view starts a fresh game from idle or game over,
      resumes a paused game without resetting it (one tick runs at once), and
      leaves a running game alone. */
  lemma ExpandedStartsOrResumes(s: Snapshot, d: Draw)
    ensures var r := SetView(s, Expanded, d);
      r.view == Expanded &&
      ((s.status.phase == Idle || s.status.phase == Gameover) ==>
         r.status.score == 0 && r.status.gameSpeed == BASE_SPEED && |r.obstacles| <= 1) &&
      (s.status.phase == Paused ==>
         r.status.score >= s.status.score && r.status.gameSpeed >= s.status.gameSpeed &&
         r.dino == Updated(s.dino) && r.status.highScore >= s.status.highScore &&
         r == Tick(s.(view := Expanded, status := s.status.(phase := Playing)), d)) &&
      (s.status.phase == Playing ==> r == s.(view := Expanded))
  {
    if s.status.phase == Idle || s.status.phase == Gameover {
      StartResets(s.(view := Expanded), d);
    } else if s.status.phase == Paused {
      var s1 := s.(view := Expanded, status := s.status.(phase := Playing));
      var m := Updated(s.dino);
      var sp := Spawned(s.obstacles, s.canvasWidth, d.jitter, d.coin);
      SweepCounters(s1.status, sp, m.y);
    }
  }

  /** Pausing a running game and resuming it is exactly the frame the pause
      cancelled: nothing is lost or reset in between. */
  lemma PauseResumeIsOneFrame(s: Snapshot, d0: Draw, d: Draw)
    requires s.status.phase == Playing && s.status.scheduled && s.view == Expanded
    ensures SetView(SetView(s, Minimal, d0), Expanded, d) == Step(s, Frame, d)
  {
    var p := SetView(s, Minimal, d0);
    assert p.(view := Expanded, status := p.status.(phase := Playing))
        == s.(status := s.status.(scheduled := false));
  }

  /** The compact view is never entered again once left. */
  lemma NoReturnToCompact(s: Snapshot, e: Event, d: Draw)
    requires s.view != Compact
    ensures Step(s, e, d).view != Compact
  {
  }

  // ---------------------------------------------------------------- input

  /** Keys and touches do nothing unless the view is expanded, and a key other
      than the jump key is ignored. */
  lemma InputInert(s: Snapshot, code: string, d: Draw)
    ensures s.view != Expanded ==> Step(s, Key(code), d) == s && Step(s, Touch, d) == s
    ensures code != JUMP_KEY ==> Step(s, Key(code), d) == s
  {
  }

  /** In the expanded view the jump key and a touch both mean: jump while playing,
      start anew after game over, nothing while idle or paused. */
  lemma InputJumpsOrRestarts(s: Snapshot, e: Event, d: Draw)
    requires s.view == Expanded && (e == Key(JUMP_KEY) || e == Touch)
    ensures s.status.phase == Playing ==> Step(s, e, d) == s.(dino := Jumped(s.dino))
    ensures s.status.phase == Gameover ==> Step(s, e, d) == Start(s, d)
    ensures s.status.phase == Idle || s.status.phase == Paused ==> Step(s, e, d) == s
  {
  }

  // ---------------------------------------------------------------- whole runs

  /** The initial session satisfies the invariant. */
  lemma InitialInv(canvasWidth: nat)
    ensures Inv(Initial(canvasWidth))
  {
  }

  /** Every event keeps the invariant. */
  lemma StepKeepsInv(s: Snapshot, e: Event, d: Draw)
    requires Inv(s)
    ensures Inv(Step(s, e, d))
  {
    match e
    case Frame =>
      if s.status.scheduled && s.status.phase == Playing {
        TickKeepsInv(s.(status := s.status.(scheduled := false)), d);
      }
    case Key(code) =>
      if s.view == Expanded && code == JUMP_KEY {
        InputKeepsInv(s, KeyDown(code), d);
      }
    case Touch =>
      if s.view == Expanded {
        InputKeepsInv(s, TouchStart, d);
      }
    case NotchClick =>
      if s.view == Compact || s.view == Minimal {
        ExpandKeepsInv(s, d);
      }
    case PageClick(inside) =>
  }

  lemma InputKeepsInv(s: Snapshot, i: Input, d: Draw)
    requires Inv(s) && s.view == Expanded
    ensures Inv(HandleInput(s, i, d))
  {
    if s.status.phase == Playing {
      SoundKept(s.dino);
    } else if s.status.phase == Gameover && !(i.KeyDown? && i.code != JUMP_KEY) {
      SoundKept(s.dino);
      TickKeepsInv(Reset(s), d);
    }
  }

  lemma ExpandKeepsInv(s: Snapshot, d: Draw)
    requires Inv(s)
    ensures Inv(SetView(s, Expanded, d))
  {
    var s1 := s.(view := Expanded);
    if s.status.phase == Idle || s.status.phase == Gameover {
      TickKeepsInv(Reset(s1), d);
    } else if s.status.phase == Paused {
      TickKeepsInv(s1.(status := s.status.(phase := Playing)), d);
    }
  }

  /** The invariant, where it holds before an event, holds after it: StepKeepsInv
      in the form the listeners of the Session class, which have no precondition,
      can use. */
  lemma StepInv(s: Snapshot, e: Event, d: Draw)
    ensures Inv(s) ==> Inv(Step(s, e, d))
  {
    if Inv(s) {
      StepKeepsInv(s, e, d);
    }
  }

  /** Every sequence of events keeps the invariant. */
  lemma {:induction false} RunKeepsInv(s: Snapshot, evs: seq<(Event, Draw)>)
    requires Inv(s)
    ensures Inv(Run(s, evs))
    decreases |evs|
  {
    if evs != [] {
      StepKeepsInv(s, evs[0].0, evs[0].1);
      RunKeepsInv(Step(s, evs[0].0, evs[0].1), evs[1..]);
    }
  }

  /** In every state reachable from start-up: the dino is between the apex of a
      jump and the ground, at rest only on the ground, and on the ground at rest
      or just jumped; the speed is the base plus one step per five points; the
      compact view goes with the idle phase only; a frame is pending while
      playing and never while paused; a finished game has high score >= score;
      and the obstacles are spaced. */
  lemma Reachable(canvasWidth: nat, evs: seq<(Event, Draw)>)
    ensures var s := Run(Initial(canvasWidth), evs);
      APEX_Y <= s.dino.y <= GROUND_Y &&
      (s.dino.dy == 0.0 ==> s.dino.y == GROUND_Y) &&
      (s.dino.y == GROUND_Y ==> s.dino.dy == 0.0 || s.dino.dy == JUMP_FORCE) &&
      s.status.gameSpeed == BASE_SPEED + SPEED_STEP * ((s.status.score / SPEED_EVERY) as real) &&
      (s.view == Compact <==> s.status.phase == Idle) &&
      (s.status.phase == Playing ==> s.status.scheduled && s.view == Expanded) &&
      (s.status.phase == Paused ==> !s.status.scheduled && s.view == Minimal) &&
      (s.status.phase == Gameover ==> s.status.highScore >= s.status.score) &&
      Spaced(s.obstacles)
  {
    InitialInv(canvasWidth);
    RunKeepsInv(Initial(canvasWidth), evs);
    SoundBetweenApexAndGround(Run(Initial(canvasWidth), evs).dino);
    SoundRestIffGround(Run(Initial(canvasWidth), evs).dino);
  }

  /** A game that has ended keeps its score as a lower bound of the high score for
      ever after: a later, shorter game does not lower it. */
  lemma ReachableBestKept(canvasWidth: nat, evs: seq<(Event, Draw)>, later: seq<(Event, Draw)>)
    ensures var s := Run(Initial(canvasWidth), evs);
      s.status.phase == Gameover ==> Run(s, later).status.highScore >= s.status.score
  {
    Reachable(canvasWidth, evs);
    RunHighScoreMonotone(Run(Initial(canvasWidth), evs), later);
  }

  /** In every reachable playing state, the next frame's pass has nothing after a
      collision: no second gameOver() and no point scored behind it. */
  lemma ReachableCollisionEndsPass(canvasWidth: nat, evs: seq<(Event, Draw)>, d: Draw)
    ensures var s := Run(Initial(canvasWidth), evs);
      s.status.phase == Playing ==>
        CollisionEndsPass(s.status, Spawned(s.obstacles, s.canvasWidth, d.jitter, d.coin), Updated(s.dino).y)
  {
    var s := Run(Initial(canvasWidth), evs);
    InitialInv(canvasWidth);
    RunKeepsInv(Initial(canvasWidth), evs);
    if s.status.phase == Playing {
      TickCollisionEndsPass(s, d);
    }
  }

  /** No event lowers the high score. */
  lemma StepHighScoreMonotone(s: Snapshot, e: Event, d: Draw)
    ensures Step(s, e, d).status.highScore >= s.status.highScore
  {
    var m := Updated(s.dino);
    SweepCounters(s.status.(scheduled := false), Spawned(s.obstacles, s.canvasWidth, d.jitter, d.coin), m.y);
    SweepCounters(s.status.(phase := Playing), Spawned(s.obstacles, s.canvasWidth, d.jitter, d.coin), m.y);
    SweepCounters(Reset(s).status, Spawned([], s.canvasWidth, d.jitter, d.coin), m.y);
  }

  /** No sequence of events lowers the high score. */
  lemma {:induction false} RunHighScoreMonotone(s: Snapshot, evs: seq<(Event, Draw)>)
    ensures Run(s, evs).status.highScore >= s.status.highScore
    decreases |evs|
  {
    if evs != [] {
      StepHighScoreMonotone(s, evs[0].0, evs[0].1);
      RunHighScoreMonotone(Step(s, evs[0].0, evs[0].1), evs[1..]);
    }
  }

  /** Within a game neither the score nor the speed ever falls: only the events
      that start a new game put them back, to 0 and the base speed. */
  lemma StepScoreMonotone(s: Snapshot, e: Event, d: Draw)
    ensures !StartsNewGame(s, e) ==>
      Step(s, e, d).status.score >= s.status.score && Step(s, e, d).status.gameSpeed >= s.status.gameSpeed
    ensures StartsNewGame(s, e) ==>
      Step(s, e, d).status.score == 0 && Step(s, e, d).status.gameSpeed == BASE_SPEED
  {
    var m := Updated(s.dino);
    var sp := Spawned(s.obstacles, s.canvasWidth, d.jitter, d.coin);
    match e
    case Frame =>
      SweepCounters(s.status.(scheduled := false), sp, m.y);
    case Key(code) =>
      if StartsNewGame(s, e) {
        StartResets(s, d);
      }
    case Touch =>
      if StartsNewGame(s, e) {
        StartResets(s, d);
      }
    case NotchClick =>
      if StartsNewGame(s, e) {
        StartResets(s.(view := Expanded), d);
      } else if (s.view == Compact || s.view == Minimal) && s.status.phase == Paused {
        SweepCounters(s.status.(phase := Playing), sp, m.y);
      }
    case PageClick(inside) =>
  }
}
