/** The target of main.py: a disc that appears with size 0, grows by GROWTH_RATE on every
    frame until the next step would reach MAX_SIZE, and then shrinks by GROWTH_RATE on every
    frame until it is gone.

    Sizes are counted in steps of GROWTH_RATE (0.2 px), so that a size is an exact integer:
    MAX_SIZE (30 px) is 150 steps, and a size of n steps is a radius of n * 0.2 px. */
module Targets {

  /** Target.GROWTH_RATE, in pixels: the length of one size step. */
  const GROWTH_RATE: real := 0.2

  /** Target.MAX_SIZE (30 px), in steps of GROWTH_RATE. */
  const MAX_SIZE: int := 150

  /** Number of updates after which a fresh target is back at size 0. */
  const LIFETIME: int := 2 * MAX_SIZE - 2

  /** The fields of a Target: its centre, its size in steps and its phase. */
  datatype TargetState = TargetState(x: int, y: int, size: int, grow: bool)

  /** A target as `Target.__init__` creates it. */
  function Fresh(x: int, y: int): TargetState {
    TargetState(x, y, 0, true)
  }

  /** The radius of t in pixels. */
  function Radius(t: TargetState): real {
    t.size as real * GROWTH_RATE
  }

  /** The states a target can be in while it is in the game's list: growing from 0 up to
      MAX_SIZE - 1 steps, or shrinking but not yet back at 0. */
  predicate InPlay(t: TargetState) {
    || (t.grow && 0 <= t.size < MAX_SIZE)
    || (!t.grow && 0 < t.size < MAX_SIZE - 1)
  }

  /** `Target.update`: switch to shrinking for good once one more step would reach
      MAX_SIZE, then move the size one step in the current direction. */
  function Step(t: TargetState): (r: TargetState)
    ensures r.x == t.x && r.y == t.y
    ensures r.grow ==> t.grow
    ensures t.size < MAX_SIZE ==> r.size < MAX_SIZE
    ensures InPlay(t) ==> 0 <= r.size && (r.size > 0 ==> InPlay(r))
  {
    var grow := if t.size + 1 >= MAX_SIZE then false else t.grow;
    TargetState(t.x, t.y, if grow then t.size + 1 else t.size - 1, grow)
  }

  /** Squared distance, in pixels, from the centre of t to the point (px, py). */
  function DistSq(t: TargetState, px: int, py: int): (d: int)
    ensures d >= 0
  {
    (px - t.x) * (px - t.x) + (py - t.y) * (py - t.y)
  }

  /** `Target.collide`: the point lies within the disc. The code compares the Euclidean
      distance with the radius; on sizes counted in steps that is
      `size >= 0 && (5 * distance)^2 <= size^2`, with no square root. */
  function Collides(t: TargetState, px: int, py: int): bool {
    0 <= t.size && 25 * DistSq(t, px, py) <= t.size * t.size
  }

  /** Each update moves the radius by GROWTH_RATE, outwards while growing and inwards
      otherwise. */
  lemma StepRadius(t: TargetState)
    ensures var r := Step(t);
      Radius(r) == if r.grow then Radius(t) + GROWTH_RATE else Radius(t) - GROWTH_RATE
  {
  }

  /** Collides is the test of main.py: the distance from the centre is at most the radius,
      which is length and so is never negative. */
  lemma CollidesIsDisc(t: TargetState, px: int, py: int)
    ensures Collides(t, px, py)
        <==> 0.0 <= Radius(t) && DistSq(t, px, py) as real <= Radius(t) * Radius(t)
  {
  }

  /** The state of a target spawned at (x, y) after n updates. */
  function Life(x: int, y: int, n: nat): TargetState
    decreases n
  {
    if n == 0 then Fresh(x, y) else Step(Life(x, y, n - 1))
  }

  /** A target grows for MAX_SIZE - 1 updates and then shrinks by one step per update. */
  lemma {:induction false} LifeClosedForm(x: int, y: int, n: nat)
    ensures Life(x, y, n) == TargetState(x, y, if n < MAX_SIZE then n else LIFETIME - n, n < MAX_SIZE)
  {
    if n > 0 {
      LifeClosedForm(x, y, n - 1);
    }
  }

  /** The size stays strictly below MAX_SIZE; the peak, MAX_SIZE - 1 steps (29.8 px), is
      reached exactly once, after MAX_SIZE - 1 updates. */
  lemma LifePeak(x: int, y: int, n: nat)
    ensures Life(x, y, n).size < MAX_SIZE
    ensures Life(x, y, n).size == MAX_SIZE - 1 <==> n == MAX_SIZE - 1
  {
    LifeClosedForm(x, y, n);
  }

  /** After its first update a target is at size 0 or below exactly from update LIFETIME
      (the 298th) on, and at that update its size is exactly 0. */
  lemma LifeExpiry(x: int, y: int, n: nat)
    requires n > 0
    ensures Life(x, y, n).size <= 0 <==> n >= LIFETIME
    ensures n == LIFETIME ==> Life(x, y, n).size == 0
  {
    LifeClosedForm(x, y, n);
  }

  /** The states InPlay admits are exactly those a fresh target passes through before its
      LIFETIME-th update. */
  lemma InPlayIsReachable(t: TargetState)
    ensures InPlay(t) <==> exists n: nat :: n < LIFETIME && Life(t.x, t.y, n) == t
  {
    if InPlay(t) {
      var n: nat := if t.grow then t.size else LIFETIME - t.size;
      LifeClosedForm(t.x, t.y, n);
      assert Life(t.x, t.y, n) == t;
    }
    if exists n: nat :: n < LIFETIME && Life(t.x, t.y, n) == t {
      var n: nat :| n < LIFETIME && Life(t.x, t.y, n) == t;
      LifeClosedForm(t.x, t.y, n);
    }
  }

  /** A point inside a disc is inside every larger disc with the same centre. */
  lemma CollidesGrows(t: TargetState, bigger: int, px: int, py: int)
    requires t.size <= bigger && Collides(t, px, py)
    ensures Collides(t.(size := bigger), px, py)
  {
    assert t.size * t.size <= bigger * bigger by {
      assert 0 <= t.size;
      assert t.size * t.size <= t.size * bigger <= bigger * bigger;
    }
  }

  /** Whether its centre is hit depends only on the sign of the size. */
  lemma CollidesAtCentre(t: TargetState)
    ensures Collides(t, t.x, t.y) <==> t.size >= 0
  {
  }

  /** A target at size 0 or below is hit only at its centre, and only at size exactly 0. */
  lemma CollidesWhenExpired(t: TargetState, px: int, py: int)
    requires t.size <= 0 && Collides(t, px, py)
    ensures t.size == 0 && px == t.x && py == t.y
  {
    assert DistSq(t, px, py) == 0;
    assert (px - t.x) * (px - t.x) >= 0 && (py - t.y) * (py - t.y) >= 0;
  }

  class Target {
    const x: int
    const y: int
    var size: int
    var grow: bool

    /** The value this object holds. */
    function View(): TargetState
      reads this
    {
      TargetState(x, y, size, grow)
    }

    /** `Target(x, y)`, main.py:33-38. */
    constructor (x: int, y: int)
      ensures View() == Fresh(x, y)
    {
      this.x := x;
      this.y := y;
      size := 0;
      grow := true;
    }

    /** `Target.update`, main.py:40-48; the centre is a constant and cannot change. */
    method Update()
      modifies this
      ensures View() == Step(old(View()))
    {
      if size + 1 >= MAX_SIZE {
        grow := false;
      }
      if grow {
        size := size + 1;
      } else {
        size := size - 1;
      }
    }

    /** `Target.collide`, main.py:57-60. */
    predicate Collide(px: int, py: int)
      reads this
    {
      Collides(View(), px, py)
    }
  }
}
