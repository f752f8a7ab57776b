/** Vertical motion of the player character (the "dino"): jumping and one tick of
    gravity integration with landing. Positions grow downwards, so "above the
    ground" means y < GROUND_Y. */
module Physics {

  const GRAVITY: real := 0.6
  const JUMP_FORCE: real := -10.0
  const GROUND_Y: real := 70.0
  const DINO_X: real := 20.0
  const DINO_WIDTH: real := 20.0
  const DINO_HEIGHT: real := 20.0

  /** The vertical state of the dino: its position y and its velocity dy. */
  datatype Motion = Motion(y: real, dy: real)

  /** The state a jump request leaves: a jump starts only from the ground. */
  function Jumped(m: Motion): Motion
  {
    if m.y == GROUND_Y then m.(dy := JUMP_FORCE) else m
  }

  /** The state one tick of motion leaves: move by dy, then either keep falling
      (gravity added) or land (clamped to the ground, at rest). */
  function Updated(m: Motion): Motion
  {
    var y := m.y + m.dy;
    if y < GROUND_Y then Motion(y, m.dy + GRAVITY) else Motion(GROUND_Y, 0.0)
  }

  /** A quantity that one tick of free flight leaves unchanged:
      2 g y - dy (dy - g). */
  function FlightEnergy(m: Motion): real
  {
    2.0 * GRAVITY * m.y - m.dy * (m.dy - GRAVITY)
  }

  /** The flight quantity at the instant of a jump from the ground. */
  const LAUNCH_ENERGY: real := 2.0 * GRAVITY * GROUND_Y - JUMP_FORCE * (JUMP_FORCE - GRAVITY)

  /** The highest point (smallest y) a flight with LAUNCH_ENERGY can reach. */
  const APEX_Y: real := (LAUNCH_ENERGY - GRAVITY * GRAVITY / 4.0) / (2.0 * GRAVITY)

  /** The velocity k ticks after a jump: JUMP_FORCE plus k steps of gravity. */
  function FlightVelocity(k: nat): real
  {
    JUMP_FORCE + (k as real) * GRAVITY
  }

  /** The states the dino can be in: not below the ground, and either resting on it
      or in flight after a jump from the ground, with the flight quantity of the
      launch and the velocity some whole number of ticks after it. */
  ghost predicate Sound(m: Motion)
  {
    m.y <= GROUND_Y &&
    ((m.y == GROUND_Y && m.dy == 0.0) ||
     (FlightEnergy(m) == LAUNCH_ENERGY && exists k: nat :: m.dy == FlightVelocity(k)))
  }

  /** A jump changes only the velocity, to JUMP_FORCE, and only on the ground. */
  lemma JumpOnlyFromGround(m: Motion)
    ensures m.y == GROUND_Y ==> Jumped(m) == Motion(GROUND_Y, JUMP_FORCE)
    ensures m.y != GROUND_Y ==> Jumped(m) == m
  {
  }

  /** After a tick the dino is never below the ground; where the move would reach
      or pass the ground it lands at rest, otherwise gravity adds exactly GRAVITY. */
  lemma UpdateLandsOrFalls(m: Motion)
    ensures Updated(m).y <= GROUND_Y
    ensures m.y + m.dy >= GROUND_Y ==> Updated(m) == Motion(GROUND_Y, 0.0)
    ensures m.y + m.dy < GROUND_Y ==> Updated(m) == Motion(m.y + m.dy, m.dy + GRAVITY)
  {
  }

  /** One tick of free flight preserves FlightEnergy. */
  lemma FlightEnergyKept(m: Motion)
    ensures FlightEnergy(Motion(m.y + m.dy, m.dy + GRAVITY)) == FlightEnergy(m)
  {
    var y, dy := m.y, m.dy;
    calc {
      FlightEnergy(Motion(y + dy, dy + GRAVITY));
      2.0 * GRAVITY * (y + dy) - (dy + GRAVITY) * dy;
      2.0 * GRAVITY * y + GRAVITY * dy - dy * dy;
      FlightEnergy(m);
    }
  }

  /** Jumping and ticking keep the dino in a sound state. */
  lemma SoundKept(m: Motion)
    requires Sound(m)
    ensures Sound(Jumped(m))
    ensures Sound(Updated(m))
  {
    FlightEnergyKept(m);
    if m.y == GROUND_Y {
      assert Jumped(m).dy == FlightVelocity(0);
    }
    if m.y + m.dy < GROUND_Y {
      var k: nat :| m.dy == FlightVelocity(k);
      assert Updated(m).dy == FlightVelocity(k + 1);
    }
  }

  /** No whole number of ticks after a jump is the velocity 0, nor the 10.6 of the
      other root of the ground-level energy equation. */
  lemma FlightVelocityNeverRestOrDown(k: nat)
    ensures FlightVelocity(k) != 0.0 && FlightVelocity(k) != 10.6
  {
    assert FlightVelocity(k) * 5.0 == (3 * k - 50) as real;
    assert 3 * k != 50 && 3 * k != 103;
  }

  /** A sound dino is at rest only on the ground, and on the ground it is either at
      rest or at the instant of a jump. */
  lemma SoundRestIffGround(m: Motion)
    requires Sound(m)
    ensures m.dy == 0.0 ==> m.y == GROUND_Y
    ensures m.y == GROUND_Y ==> m.dy == 0.0 || m.dy == JUMP_FORCE
  {
    if !(m.y == GROUND_Y && m.dy == 0.0) {
      var k: nat :| m.dy == FlightVelocity(k);
      FlightVelocityNeverRestOrDown(k);
      if m.y == GROUND_Y {
        var a, b := m.dy + 10.0, m.dy - 10.6;
        assert a * b == 0.0;
        assert b != 0.0;
        assert a == (a * b) / b;
      }
    }
  }

  /** In every sound state the dino is between the apex of a jump and the ground. */
  lemma SoundBetweenApexAndGround(m: Motion)
    requires Sound(m)
    ensures APEX_Y <= m.y <= GROUND_Y
  {
    var d := m.dy - GRAVITY / 2.0;
    assert d * d >= 0.0;
    assert m.dy * (m.dy - GRAVITY) == d * d - GRAVITY * GRAVITY / 4.0;
  }

  /** The dino object of the game; x, width and height never change. */
  class Dino {
    var y: real
    var dy: real

    /** The dino's vertical state. */
    function State(): Motion
      reads this
    {
      Motion(y, dy)
    }

    constructor ()
      ensures State() == Motion(GROUND_Y, 0.0)
    {
      y := GROUND_Y;
      dy := 0.0;
    }

    /** Starts a jump if the dino stands on the ground; otherwise does nothing. */
    method Jump()
      modifies this
      ensures State() == Jumped(old(State()))
      ensures old(y) == GROUND_Y ==> dy == JUMP_FORCE && y == GROUND_Y
      ensures old(y) != GROUND_Y ==> unchanged(this)
    {
      if y == GROUND_Y {
        dy := JUMP_FORCE;
      }
    }

    /** Applies one tick of motion. */
    method Update()
      modifies this
      ensures State() == Updated(old(State()))
      ensures y <= GROUND_Y
      ensures old(y + dy) >= GROUND_Y ==> y == GROUND_Y && dy == 0.0
      ensures old(y + dy) < GROUND_Y ==> y == old(y + dy) && dy == old(dy) + GRAVITY
    {
      y := y + dy;
      if y < GROUND_Y {
        dy := dy + GRAVITY;
      } else {
        y := GROUND_Y;
        dy := 0.0;
      }
    }
  }
}
