/** The game phase, the widget's view mode, and the session counters that the
    obstacle pass and the phase controller update. */
module Phases {

  datatype Phase = Idle | Playing | Paused | Gameover

  datatype View = Compact | Minimal | Expanded

  const BASE_SPEED: real := 5.0
  const SPEED_STEP: real := 0.2
  /** The speed rises each time the score reaches a multiple of this. */
  const SPEED_EVERY: nat := 5

  /** The session counters: phase, score, high score, speed, and whether an
      animation frame is requested (the browser's frame scheduler, as a flag). */
  datatype Status = Status(phase: Phase, score: nat, highScore: nat, gameSpeed: real, scheduled: bool)

  /** The counters `gameOver()` leaves: phase gameover, the frame cancelled, and
      the high score raised to the score when the score exceeds it. */
  function Ended(t: Status): (r: Status)
    ensures r.phase == Gameover && !r.scheduled
    ensures r.highScore >= t.highScore && r.highScore >= t.score
    ensures r.highScore == t.highScore || r.highScore == t.score
    ensures r.score == t.score && r.gameSpeed == t.gameSpeed
  {
    t.(phase := Gameover, scheduled := false,
       highScore := if t.score > t.highScore then t.score else t.highScore)
  }

  /** The counters after one obstacle has scrolled off: one more point, and the
      speed step whenever the new score is a multiple of SPEED_EVERY. */
  function Scored(t: Status): Status
  {
    var s := t.score + 1;
    t.(score := s, gameSpeed := if s % SPEED_EVERY == 0 then t.gameSpeed + SPEED_STEP else t.gameSpeed)
  }

  /** Calling gameOver() a second time in the same tick changes nothing more. */
  lemma EndedIdempotent(t: Status)
    ensures Ended(Ended(t)) == Ended(t)
  {
  }

  /** Scoring adds one point, and the speed grows by one step exactly when the
      point crosses a multiple of SPEED_EVERY. */
  lemma ScoredStepsSpeed(t: Status)
    ensures Scored(t).score == t.score + 1
    ensures Scored(t).gameSpeed == t.gameSpeed + SPEED_STEP * ((Scored(t).score / SPEED_EVERY - t.score / SPEED_EVERY) as real)
  {
    var s := t.score + 1;
    if s % SPEED_EVERY == 0 {
      assert s / SPEED_EVERY == t.score / SPEED_EVERY + 1;
    } else {
      assert s / SPEED_EVERY == t.score / SPEED_EVERY;
    }
  }
}
