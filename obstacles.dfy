/** Obstacles: spawning, the per-tick pass that moves each obstacle, tests it
    against the dino and retires it once off screen, and the filter that keeps
    the survivors. */
module Obstacles {
  import opened Physics
  import opened Phases

  const OBSTACLE_WIDTH: real := 15.0
  const OBSTACLE_HEIGHT: real := 20.0
  const MIN_OBSTACLE_GAP: real := 150.0
  /** The random part of the spawn gap is drawn from [0, JITTER_RANGE). */
  const JITTER_RANGE: real := 100.0

  /** A value of `Math.random() * 100`. */
  type Jitter = j: real | 0.0 <= j < JITTER_RANGE

  datatype Obstacle = Obstacle(x: real, y: real, width: real, height: real, markedForDeletion: bool)

  /** An axis-aligned box: left edge, top edge, width and height. */
  datatype Box = Box(x: real, y: real, width: real, height: real)

  /** Strict overlap on both axes: boxes that only touch do not overlap. */
  predicate Overlaps(a: Box, b: Box)
  {
    a.x < b.x + b.width && a.x + a.width > b.x &&
    a.y < b.y + b.height && a.y + a.height > b.y
  }

  function DinoBox(dinoY: real): Box
  {
    Box(DINO_X, dinoY, DINO_WIDTH, DINO_HEIGHT)
  }

  function BoxOf(o: Obstacle): Box
  {
    Box(o.x, o.y, o.width, o.height)
  }

  /** The collision test of the pass, with the dino first as in the game. */
  predicate Collides(dinoY: real, o: Obstacle)
  {
    Overlaps(DinoBox(dinoY), BoxOf(o))
  }

  /** The obstacle's right edge has passed the left edge of the canvas. */
  predicate OffScreen(o: Obstacle)
  {
    o.x + o.width < 0.0
  }

  /** What `createObstacle()` pushes: a fresh obstacle at the right edge. */
  function NewObstacle(canvasWidth: nat): Obstacle
  {
    Obstacle(canvasWidth as real, GROUND_Y, OBSTACLE_WIDTH, OBSTACLE_HEIGHT, false)
  }

  /** An obstacle as the game creates it, whatever its current x. */
  predicate WellShaped(o: Obstacle)
  {
    o.y == GROUND_Y && o.width == OBSTACLE_WIDTH && o.height == OBSTACLE_HEIGHT && !o.markedForDeletion
  }

  /** The spacing the spawn gap creates: list order is left-to-right order, and
      each obstacle is more than the minimum gap to the right of the one before. */
  predicate Spaced(obs: seq<Obstacle>)
  {
    forall k :: 1 <= k < |obs| ==> obs[k].x - obs[k - 1].x > MIN_OBSTACLE_GAP
  }

  /** The gap test: no obstacle yet, or the newest one is more than the minimum
      gap plus the jitter away from the right edge. */
  predicate GapOpen(obs: seq<Obstacle>, canvasWidth: nat, j: Jitter)
  {
    |obs| == 0 || canvasWidth as real - obs[|obs| - 1].x > MIN_OBSTACLE_GAP + j
  }

  /** The list after the spawn step; `coin` is the outcome of the 2% draw. */
  function Spawned(obs: seq<Obstacle>, canvasWidth: nat, j: Jitter, coin: bool): seq<Obstacle>
  {
    if GapOpen(obs, canvasWidth, j) && coin then obs + [NewObstacle(canvasWidth)] else obs
  }

  /** The counters and the obstacles processed so far in one pass. */
  datatype Pass = Pass(status: Status, moved: seq<Obstacle>)

  /** One step of the pass on obstacle o: move it left by the current speed, call
      gameOver() on a collision, then retire and score it if it is off screen. */
  function Visit(t: Status, o: Obstacle, dinoY: real): Pass
  {
    var m := o.(x := o.x - t.gameSpeed);
    var t1 := if Collides(dinoY, m) then Ended(t) else t;
    if OffScreen(m) then Pass(Scored(t1), [m.(markedForDeletion := true)]) else Pass(t1, [m])
  }

  /** The whole pass over obs, in list order, each step seeing the counters the
      earlier steps left. */
  function Sweep(t: Status, obs: seq<Obstacle>, dinoY: real): (r: Pass)
    ensures |r.moved| == |obs|
    decreases |obs|
  {
    if obs == [] then Pass(t, [])
    else
      var p := Sweep(t, obs[..|obs| - 1], dinoY);
      var v := Visit(p.status, obs[|obs| - 1], dinoY);
      Pass(v.status, p.moved + v.moved)
  }

  /** The counters in force when the pass reaches obstacle k. */
  function StatusAt(t: Status, obs: seq<Obstacle>, dinoY: real, k: nat): Status
    requires k <= |obs|
  {
    Sweep(t, obs[..k], dinoY).status
  }

  /** `filter(o => !o.markedForDeletion)`. */
  function Keep(s: seq<Obstacle>): seq<Obstacle>
  {
    if s == [] then []
    else Keep(s[..|s| - 1]) + (if s[|s| - 1].markedForDeletion then [] else [s[|s| - 1]])
  }

  /** The specification of the survivors: the obstacles still (partly) on screen,
      in their order. */
  function Visible(s: seq<Obstacle>): seq<Obstacle>
  {
    if s == [] then []
    else Visible(s[..|s| - 1]) + (if OffScreen(s[|s| - 1]) then [] else [s[|s| - 1]])
  }

  predicate AllUnmarked(s: seq<Obstacle>)
  {
    forall k :: 0 <= k < |s| ==> !s[k].markedForDeletion
  }

  /** The filter as a loop over the list. */
  method KeepUnmarked(s: seq<Obstacle>) returns (r: seq<Obstacle>)
    ensures r == Keep(s)
  {
    r := [];
    var i := 0;
    while i < |s|
      invariant 0 <= i <= |s|
      invariant r == Keep(s[..i])
    {
      assert s[..i + 1][..i] == s[..i];
      if !s[i].markedForDeletion {
        r := r + [s[i]];
      }
      i := i + 1;
    }
    assert s[..|s|] == s;
  }

  // ---------------------------------------------------------------- collision

  /** The overlap test does not depend on the order of its arguments. */
  lemma OverlapsSymmetric(a: Box, b: Box)
    ensures Overlaps(a, b) <==> Overlaps(b, a)
  {
  }

  /** Boxes that share only an edge do not overlap. */
  lemma TouchingDoesNotOverlap(a: Box, b: Box)
    requires a.x + a.width == b.x || b.x + b.width == a.x ||
             a.y + a.height == b.y || b.y + b.height == a.y
    ensures !Overlaps(a, b)
  {
  }

  /** For a dino not below the ground and an obstacle as the game creates it, a
      collision happens exactly when the obstacle's left edge is strictly between
      5 and 40 and the dino is lower than 50. */
  lemma CollisionZone(dinoY: real, o: Obstacle)
    requires dinoY <= GROUND_Y && WellShaped(o)
    ensures Collides(dinoY, o) <==> 5.0 < o.x < 40.0 && dinoY > 50.0
  {
  }

  // ---------------------------------------------------------------- spawning

  /** A spawn happens exactly when the gap is open and the coin succeeds; it then
      appends exactly one obstacle, at the right edge, more than the minimum gap
      plus the jitter to the right of the previous newest obstacle. */
  lemma SpawnAppendsOne(obs: seq<Obstacle>, canvasWidth: nat, j: Jitter, coin: bool)
    ensures var r := Spawned(obs, canvasWidth, j, coin);
      (|r| == |obs| + 1 <==> GapOpen(obs, canvasWidth, j) && coin) &&
      (|r| == |obs| + 1 ==>
         r[..|obs|] == obs && r[|obs|] == NewObstacle(canvasWidth) && r[|obs|].x == canvasWidth as real &&
         (obs == [] || r[|obs|].x - obs[|obs| - 1].x > MIN_OBSTACLE_GAP + j)) &&
      (|r| != |obs| + 1 ==> r == obs)
  {
    var r := Spawned(obs, canvasWidth, j, coin);
    if GapOpen(obs, canvasWidth, j) && coin {
      assert r[..|obs|] == obs;
    }
  }

  // ---------------------------------------------------------------- the pass

  /** The pass over a list with one more obstacle at the end is one more visit. */
  lemma SweepSnoc(t: Status, a: seq<Obstacle>, o: Obstacle, dinoY: real)
    ensures var p := Sweep(t, a, dinoY);
            var v := Visit(p.status, o, dinoY);
            Sweep(t, a + [o], dinoY) == Pass(v.status, p.moved + v.moved)
  {
    assert (a + [o])[..|a|] == a;
  }

  /** The pass over a concatenation is the pass over the first part followed by
      the pass over the second, started from the counters the first one left. */
  lemma {:induction false} SweepSplit(t: Status, a: seq<Obstacle>, b: seq<Obstacle>, dinoY: real)
    ensures var pa := Sweep(t, a, dinoY);
            var pb := Sweep(pa.status, b, dinoY);
            Sweep(t, a + b, dinoY) == Pass(pb.status, pa.moved + pb.moved)
    decreases |b|
  {
    var pa := Sweep(t, a, dinoY);
    if b == [] {
      assert a + b == a;
      assert pa.moved + [] == pa.moved;
    } else {
      var b', o := b[..|b| - 1], b[|b| - 1];
      assert b == b' + [o];
      assert a + b == (a + b') + [o];
      SweepSplit(t, a, b', dinoY);
      var q := Sweep(pa.status, b', dinoY);
      SweepSnoc(t, a + b', o, dinoY);
      SweepSnoc(pa.status, b', o, dinoY);
      var w := Visit(q.status, o, dinoY);
      assert (pa.moved + q.moved) + w.moved == pa.moved + (q.moved + w.moved);
    }
  }

  /** Obstacle k of the pass is the visit of obs[k] with the counters in force when
      the pass reaches it. */
  lemma SweepAt(t: Status, obs: seq<Obstacle>, dinoY: real, k: nat)
    requires k < |obs|
    ensures Sweep(t, obs, dinoY).moved[k] == Visit(StatusAt(t, obs, dinoY, k), obs[k], dinoY).moved[0]
    ensures StatusAt(t, obs, dinoY, k + 1) == Visit(StatusAt(t, obs, dinoY, k), obs[k], dinoY).status
  {
    var pre := Sweep(t, obs[..k], dinoY);
    var v := Visit(pre.status, obs[k], dinoY);
    assert obs[..k + 1] == obs[..k] + [obs[k]];
    SweepSnoc(t, obs[..k], obs[k], dinoY);
    var upto := Sweep(t, obs[..k + 1], dinoY);
    assert upto.moved == pre.moved + v.moved;
    assert obs[..k + 1] + obs[k + 1..] == obs;
    SweepSplit(t, obs[..k + 1], obs[k + 1..], dinoY);
    var rest := Sweep(upto.status, obs[k + 1..], dinoY);
    assert Sweep(t, obs, dinoY).moved == (pre.moved + v.moved) + rest.moved;
    assert |pre.moved| == k;
  }

  /** Every obstacle moves left by the speed in force when the pass reaches it and
      keeps its shape; it is marked exactly when it is off screen after moving
      (or was already marked). */
  lemma SweepMoves(t: Status, obs: seq<Obstacle>, dinoY: real)
    ensures var r := Sweep(t, obs, dinoY);
      forall k :: 0 <= k < |obs| ==>
        r.moved[k].x == obs[k].x - StatusAt(t, obs, dinoY, k).gameSpeed &&
        r.moved[k].y == obs[k].y && r.moved[k].width == obs[k].width && r.moved[k].height == obs[k].height &&
        (r.moved[k].markedForDeletion <==> obs[k].markedForDeletion || OffScreen(r.moved[k]))
  {
    forall k | 0 <= k < |obs|
      ensures var r := Sweep(t, obs, dinoY);
        r.moved[k].x == obs[k].x - StatusAt(t, obs, dinoY, k).gameSpeed &&
        r.moved[k].y == obs[k].y && r.moved[k].width == obs[k].width && r.moved[k].height == obs[k].height &&
        (r.moved[k].markedForDeletion <==> obs[k].markedForDeletion || OffScreen(r.moved[k]))
    {
      SweepAt(t, obs, dinoY, k);
    }
  }

  /** Across the pass the score never falls, the high score never falls, and the
      speed grows by one step for each multiple of SPEED_EVERY the score crosses. */
  lemma {:induction false} SweepCounters(t: Status, obs: seq<Obstacle>, dinoY: real)
    ensures var r := Sweep(t, obs, dinoY).status;
      r.score >= t.score && r.highScore >= t.highScore &&
      r.gameSpeed == t.gameSpeed + SPEED_STEP * ((r.score / SPEED_EVERY - t.score / SPEED_EVERY) as real)
    decreases |obs|
  {
    if obs != [] {
      var p := Sweep(t, obs[..|obs| - 1], dinoY);
      SweepCounters(t, obs[..|obs| - 1], dinoY);
      var o := obs[|obs| - 1];
      var m := o.(x := o.x - p.status.gameSpeed);
      var t1 := if Collides(dinoY, m) then Ended(p.status) else p.status;
      ScoredStepsSpeed(t1);
    }
  }

  /** The speed in force at every obstacle lies between the speeds before and
      after the pass; without any speed step it is exactly the initial speed. */
  lemma SweepSpeedBounds(t: Status, obs: seq<Obstacle>, dinoY: real, k: nat)
    requires k <= |obs|
    ensures var r := Sweep(t, obs, dinoY).status;
      t.gameSpeed <= StatusAt(t, obs, dinoY, k).gameSpeed <= r.gameSpeed &&
      (r.gameSpeed == t.gameSpeed ==> StatusAt(t, obs, dinoY, k).gameSpeed == t.gameSpeed)
  {
    var pre := Sweep(t, obs[..k], dinoY);
    SweepSplit(t, obs[..k], obs[k..], dinoY);
    assert obs[..k] + obs[k..] == obs;
    SweepCounters(t, obs[..k], dinoY);
    SweepCounters(pre.status, obs[k..], dinoY);
    var r := Sweep(t, obs, dinoY).status;
    assert r.score / SPEED_EVERY >= pre.status.score / SPEED_EVERY;
    assert pre.status.score / SPEED_EVERY >= t.score / SPEED_EVERY;
  }

  /** A pass over unmarked obstacles raises the score by exactly the number of
      obstacles the filter then removes. */
  lemma {:induction false} SweepScore(t: Status, obs: seq<Obstacle>, dinoY: real)
    requires AllUnmarked(obs)
    ensures var r := Sweep(t, obs, dinoY);
      r.status.score == t.score + (|obs| - |Keep(r.moved)|)
    decreases |obs|
  {
    if obs != [] {
      var init := obs[..|obs| - 1];
      assert forall k :: 0 <= k < |init| ==> init[k] == obs[k];
      var p := Sweep(t, init, dinoY);
      SweepScore(t, init, dinoY);
      var o := obs[|obs| - 1];
      var m := o.(x := o.x - p.status.gameSpeed);
      var t1 := if Collides(dinoY, m) then Ended(p.status) else p.status;
      var v := Visit(p.status, o, dinoY);
      assert Sweep(t, obs, dinoY) == Pass(v.status, p.moved + v.moved);
      KeepAppend(p.moved, v.moved);
      if OffScreen(m) {
        var dead := m.(markedForDeletion := true);
        assert v == Pass(Scored(t1), [dead]);
        assert [dead][..0] == [];
        assert Keep([dead]) == [];
      } else {
        assert v == Pass(t1, [m]);
        assert [m][..0] == [];
        assert Keep([m]) == [m];
      }
    }
  }

  /** A collision anywhere in the pass ends the game; a pass without a collision
      leaves phase, high score and frame request as they were. */
  lemma {:induction false} SweepPhase(t: Status, obs: seq<Obstacle>, dinoY: real)
    ensures var r := Sweep(t, obs, dinoY);
      ((exists k :: 0 <= k < |obs| && Collides(dinoY, r.moved[k])) ==> r.status.phase == Gameover) &&
      ((forall k :: 0 <= k < |obs| ==> !Collides(dinoY, r.moved[k])) ==>
         r.status.phase == t.phase && r.status.highScore == t.highScore && r.status.scheduled == t.scheduled)
    decreases |obs|
  {
    if obs != [] {
      var init := obs[..|obs| - 1];
      var p := Sweep(t, init, dinoY);
      var r := Sweep(t, obs, dinoY);
      var o := obs[|obs| - 1];
      var m := o.(x := o.x - p.status.gameSpeed);
      var v := Visit(p.status, o, dinoY);
      assert r == Pass(v.status, p.moved + v.moved);
      assert forall k :: 0 <= k < |init| ==> r.moved[k] == p.moved[k];
      assert Collides(dinoY, r.moved[|obs| - 1]) <==> Collides(dinoY, m);
      SweepPhase(t, init, dinoY);
      if forall k :: 0 <= k < |obs| ==> !Collides(dinoY, r.moved[k]) {
        assert forall k :: 0 <= k < |init| ==> !Collides(dinoY, p.moved[k]);
      }
    }
  }

  /** After a pass over unmarked obstacles the filter keeps exactly the moved
      obstacles that are still on screen, in their order. */
  lemma SweepSurvivors(t: Status, obs: seq<Obstacle>, dinoY: real)
    requires AllUnmarked(obs)
    ensures var r := Sweep(t, obs, dinoY);
      Keep(r.moved) == Visible(r.moved)
  {
    SweepMoves(t, obs, dinoY);
    KeepIsVisible(Sweep(t, obs, dinoY).moved);
  }

  /** The pass as written goes on after a collision: an obstacle visited after it
      still scores, after gameOver() has already taken the high score. Here the
      pass ends with score 1 while the high score stays 0. The list is not spaced,
      so the game never builds it: in reachable states nothing follows a
      collision in the pass (Machine.ReachableCollisionEndsPass). */
  lemma ScoreAfterGameOverMissesHighScore()
    ensures var first := Obstacle(30.0, GROUND_Y, OBSTACLE_WIDTH, OBSTACLE_HEIGHT, false);
            var second := Obstacle(-12.0, GROUND_Y, OBSTACLE_WIDTH, OBSTACLE_HEIGHT, false);
            !Spaced([first, second]) &&
            Sweep(Status(Playing, 0, 0, BASE_SPEED, true), [first, second], GROUND_Y).status
              == Status(Gameover, 1, 0, BASE_SPEED, false)
  {
    var first := Obstacle(30.0, GROUND_Y, OBSTACLE_WIDTH, OBSTACLE_HEIGHT, false);
    var second := Obstacle(-12.0, GROUND_Y, OBSTACLE_WIDTH, OBSTACLE_HEIGHT, false);
    var t := Status(Playing, 0, 0, BASE_SPEED, true);
    assert [first, second][..1] == [first];
    assert [first][..0] == [];
    assert Sweep(t, [], GROUND_Y) == Pass(t, []);
    var m := first.(x := 25.0);
    assert Collides(GROUND_Y, m) && !OffScreen(m);
    var p1 := Sweep(t, [first], GROUND_Y);
    assert p1.status == Ended(t);
    assert p1.status == Status(Gameover, 0, 0, BASE_SPEED, false);
    assert [first, second][1].x - [first, second][0].x <= MIN_OBSTACLE_GAP;
  }

  // ---------------------------------------------------------------- the filter

  /** The filter distributes over concatenation, so it keeps the order. */
  lemma {:induction false} KeepAppend(a: seq<Obstacle>, b: seq<Obstacle>)
    ensures Keep(a + b) == Keep(a) + Keep(b)
    decreases |b|
  {
    if b == [] {
      assert a + b == a;
    } else {
      var b' := b[..|b| - 1];
      KeepAppend(a, b');
      assert (a + b)[..|a + b| - 1] == a + b';
    }
  }

  /** An obstacle survives the filter exactly when it was in the list unmarked. */
  lemma {:induction false} KeepMembers(s: seq<Obstacle>, o: Obstacle)
    ensures o in Keep(s) <==> o in s && !o.markedForDeletion
    decreases |s|
  {
    if s != [] {
      KeepMembers(s[..|s| - 1], o);
      assert s == s[..|s| - 1] + [s[|s| - 1]];
    }
  }

  /** Where exactly the off-screen obstacles are marked, the filter is Visible. */
  lemma {:induction false} KeepIsVisible(s: seq<Obstacle>)
    requires forall k :: 0 <= k < |s| ==> (s[k].markedForDeletion <==> OffScreen(s[k]))
    ensures Keep(s) == Visible(s)
    decreases |s|
  {
    if s != [] {
      KeepIsVisible(s[..|s| - 1]);
    }
  }

  // ---------------------------------------------------------------- spacing

  /** The spawn step keeps the list spaced: a new obstacle appears only more than
      the minimum gap (plus the jitter) to the right of the newest one. */
  lemma SpawnKeepsSpaced(obs: seq<Obstacle>, canvasWidth: nat, j: Jitter, coin: bool)
    requires Spaced(obs)
    ensures Spaced(Spawned(obs, canvasWidth, j, coin))
  {
    if GapOpen(obs, canvasWidth, j) && coin {
      var r := obs + [NewObstacle(canvasWidth)];
      assert forall k :: 0 <= k < |obs| ==> r[k] == obs[k];
      assert r[|obs|].x == canvasWidth as real;
    }
  }

  /** In a pass over a spaced list of game-shaped obstacles, an obstacle still on
      screen after its visit is followed only by obstacles still on screen, each
      more than the minimum gap further right; and the last one, if on screen,
      moved by the speed the pass ends with. */
  lemma {:induction false} SpacedPass(t: Status, obs: seq<Obstacle>, dinoY: real)
    requires Spaced(obs) && forall k :: 0 <= k < |obs| ==> WellShaped(obs[k])
    ensures var r := Sweep(t, obs, dinoY);
      (forall i, j :: 0 <= i < j < |obs| && !r.moved[i].markedForDeletion ==>
         !r.moved[j].markedForDeletion && r.moved[j].x - r.moved[i].x > MIN_OBSTACLE_GAP) &&
      (obs != [] && !r.moved[|obs| - 1].markedForDeletion ==>
         !OffScreen(r.moved[|obs| - 1]) && r.moved[|obs| - 1].x == obs[|obs| - 1].x - r.status.gameSpeed)
    decreases |obs|
  {
    if obs != [] {
      var n := |obs| - 1;
      var init, o := obs[..n], obs[n];
      assert forall k :: 0 <= k < n ==> init[k] == obs[k];
      assert Spaced(init);
      SpacedPass(t, init, dinoY);
      var p := Sweep(t, init, dinoY);
      var v := Visit(p.status, o, dinoY);
      var r := Sweep(t, obs, dinoY);
      assert r == Pass(v.status, p.moved + v.moved);
      assert forall i :: 0 <= i < n ==> r.moved[i] == p.moved[i];
      var m := o.(x := o.x - p.status.gameSpeed);
      var t1 := if Collides(dinoY, m) then Ended(p.status) else p.status;
      if n > 0 && !p.moved[n - 1].markedForDeletion {
        assert obs[n].x - obs[n - 1].x > MIN_OBSTACLE_GAP;
        assert m.x - p.moved[n - 1].x > MIN_OBSTACLE_GAP;
        assert !OffScreen(m);
        assert v == Pass(t1, [m]);
        assert r.moved[n] == m;
        forall i | 0 <= i < n && !r.moved[i].markedForDeletion
          ensures r.moved[n].x - r.moved[i].x > MIN_OBSTACLE_GAP
        {
          if i < n - 1 {
            assert r.moved[n - 1].x - r.moved[i].x > MIN_OBSTACLE_GAP;
          }
        }
      } else {
        assert forall i :: 0 <= i < n ==> p.moved[i].markedForDeletion;
        if !OffScreen(m) {
          assert v == Pass(t1, [m]);
        } else {
          assert v == Pass(Scored(t1), [m.(markedForDeletion := true)]);
        }
      }
    }
  }

  /** In a pass over a spaced list of game-shaped obstacles, every obstacle still
      on screen moved by exactly the speed the pass ends with: the speed only
      steps at obstacles that leave the screen, and those all come first. */
  lemma {:induction false} SurvivorsMoveByFinalSpeed(t: Status, obs: seq<Obstacle>, dinoY: real)
    requires Spaced(obs) && forall k :: 0 <= k < |obs| ==> WellShaped(obs[k])
    ensures var r := Sweep(t, obs, dinoY);
      forall k :: 0 <= k < |obs| && !r.moved[k].markedForDeletion ==>
        r.moved[k].x == obs[k].x - r.status.gameSpeed
    decreases |obs|
  {
    if obs != [] {
      var n := |obs| - 1;
      var init, o := obs[..n], obs[n];
      assert forall k :: 0 <= k < n ==> init[k] == obs[k];
      assert Spaced(init);
      SurvivorsMoveByFinalSpeed(t, init, dinoY);
      SpacedPass(t, obs, dinoY);
      var p := Sweep(t, init, dinoY);
      var v := Visit(p.status, o, dinoY);
      var r := Sweep(t, obs, dinoY);
      assert r == Pass(v.status, p.moved + v.moved);
      forall k | 0 <= k < |obs| && !r.moved[k].markedForDeletion
        ensures r.moved[k].x == obs[k].x - r.status.gameSpeed
      {
        if k < n {
          assert r.moved[k] == p.moved[k];
          assert !r.moved[n].markedForDeletion;
          assert r.moved[n] == v.moved[0];
          VisitOnScreenKeepsSpeed(p.status, o, dinoY);
        }
      }
    }
  }

  /** One visit that leaves its obstacle unmarked does not step the speed. */
  lemma VisitOnScreenKeepsSpeed(t: Status, o: Obstacle, dinoY: real)
    ensures !Visit(t, o, dinoY).moved[0].markedForDeletion ==> Visit(t, o, dinoY).status.gameSpeed == t.gameSpeed
  {
  }

  /** The filter keeps a list spaced when every obstacle after an unmarked one is
      unmarked and more than the minimum gap further right. */
  lemma {:induction false} KeepSpaced(s: seq<Obstacle>)
    requires forall i, j :: 0 <= i < j < |s| && !s[i].markedForDeletion ==>
      !s[j].markedForDeletion && s[j].x - s[i].x > MIN_OBSTACLE_GAP
    ensures Spaced(Keep(s))
    decreases |s|
  {
    if s != [] {
      var init, l := s[..|s| - 1], s[|s| - 1];
      assert forall k :: 0 <= k < |init| ==> init[k] == s[k];
      KeepSpaced(init);
      var K := Keep(init);
      if !l.markedForDeletion && K != [] {
        var q := K[|K| - 1];
        KeepMembers(init, q);
        var i :| 0 <= i < |init| && init[i] == q;
        assert s[i] == q;
        assert l.x - q.x > MIN_OBSTACLE_GAP;
        assert Keep(s) == K + [l];
        assert forall k :: 0 <= k < |K| ==> (K + [l])[k] == K[k];
      }
    }
  }
}
