/**
 * The duration of a selector transition: the time the highlight needs to
 * travel the distance between the centres of its old and new bounds at the
 * configured velocity (pixels per second), in milliseconds.
 */
module Travel {
  import opened Platform

  /** a <= b implies a^2 <= b^2 for non-negative numbers. */
  lemma SquareMonotone(a: nat, b: nat)
    requires a <= b
    ensures a * a <= b * b
  {
    assert a * a <= a * b;
    assert a * b <= b * b;
  }

  /** The integer square root: the largest r with r^2 <= n. */
  function Isqrt(n: nat): (r: nat)
    ensures r * r <= n < (r + 1) * (r + 1)
    decreases n
  {
    if n < 4 then (if n == 0 then 0 else 1)
    else
      var c := 2 * Isqrt(n / 4);
      IsqrtStep(n, Isqrt(n / 4));
      if (c + 1) * (c + 1) <= n then c + 1 else c
  }

  /** The step of Isqrt: doubling the root of n / 4 brackets the root of n. */
  lemma IsqrtStep(n: nat, h: nat)
    requires h * h <= n / 4 < (h + 1) * (h + 1)
    ensures (2 * h) * (2 * h) <= n < (2 * h + 2) * (2 * h + 2)
  {
    var q := n / 4;
    assert n == 4 * q + n % 4 && n % 4 < 4;
    assert (2 * h) * (2 * h) == 4 * (h * h);
    assert (2 * h + 2) * (2 * h + 2) == 4 * ((h + 1) * (h + 1));
    assert q + 1 <= (h + 1) * (h + 1);
  }

  /** Any r with r^2 <= n < (r+1)^2 is the integer square root of n. */
  lemma IsqrtUnique(n: nat, r: nat)
    requires r * r <= n < (r + 1) * (r + 1)
    ensures Isqrt(n) == r
  {
    var s := Isqrt(n);
    if s < r {
      SquareMonotone(s + 1, r);
    } else if r < s {
      SquareMonotone(r + 1, s);
    }
  }

  /** q = s / v is the integer quotient: q * v <= s < (q + 1) * v. */
  lemma QuotientBounds(s: nat, v: int)
    requires v > 0
    ensures 0 <= s / v && (s / v) * v <= s < (s / v + 1) * v
  {
    var q, m := s / v, s % v;
    assert s == q * v + m && 0 <= m < v;
    assert (q + 1) * v == q * v + v;
  }

  /** 1000000 * (dx^2 + dy^2): the squared distance in thousandths of a pixel. */
  function ScaledSquaredDistance(dx: int, dy: int): (n: nat)
    ensures n == 1000000 * (dx * dx + dy * dy)
  {
    var x: nat := if dx < 0 then -dx else dx;
    var y: nat := if dy < 0 then -dy else dy;
    assert x * x == dx * dx && y * y == dy * dy;
    1000000 * (x * x + y * y)
  }

  /**
   * computeTravelDuration: `(int) (Math.sqrt(dx * dx + dy * dy) / velocity * 1000)`
   * taken in exact arithmetic. Since the cast truncates a non-negative value,
   * the result is floor(1000 * sqrt(dx^2 + dy^2) / velocity), which equals
   * floor(Isqrt(1000000 * (dx^2 + dy^2)) / velocity).
   */
  function TravelDuration(dx: int, dy: int, velocity: int): (d: nat)
    requires velocity > 0
    ensures Brackets(d, velocity, 1000000 * (dx * dx + dy * dy))
  {
    var n := ScaledSquaredDistance(dx, dy);
    DurationBounds(n, velocity);
    Isqrt(n) / velocity
  }

  /** d is the quotient by v of the square root of n: (d * v)^2 <= n < ((d + 1) * v)^2. */
  predicate Brackets(d: int, v: int, n: int) {
    (d * v) * (d * v) <= n < ((d + 1) * v) * ((d + 1) * v)
  }

  /** The quotient of the integer square root of n by v brackets sqrt(n) / v. */
  lemma DurationBounds(n: nat, v: int)
    requires v > 0
    ensures Isqrt(n) / v >= 0 && Brackets(Isqrt(n) / v, v, n)
  {
    var s := Isqrt(n);
    QuotientBounds(s, v);
    var d := s / v;
    SquareMonotone(d * v, s);
    SquareMonotone(s + 1, (d + 1) * v);
  }

  /**
   * The duration animateSelectorChange gives a transition from `source` to
   * `dest`: zero when the velocity is not positive, otherwise the travel
   * duration between the two centres.
   */
  function TransitionDuration(velocity: int, source: Rect, dest: Rect): (d: nat)
    ensures velocity <= 0 ==> d == 0
  {
    if velocity > 0 then
      TravelDuration(dest.CenterX() - source.CenterX(), dest.CenterY() - source.CenterY(), velocity)
    else 0
  }

  /** When the distance is a whole number the duration is floor(1000 * distance / velocity). */
  lemma ExactDistanceDuration(dx: int, dy: int, velocity: int, distance: nat)
    requires velocity > 0
    requires dx * dx + dy * dy == distance * distance
    ensures TravelDuration(dx, dy, velocity) == (1000 * distance) / velocity
  {
    var n := 1000000 * (dx * dx + dy * dy);
    assert (1000 * distance) * (1000 * distance) == n;
    assert (1000 * distance + 1) * (1000 * distance + 1) == n + 2000 * distance + 1;
    IsqrtUnique(n, 1000 * distance);
  }

  /** A travel of (300, 400) at 500 px/s lasts 1000 ms. */
  lemma TravelDurationExample()
    ensures TravelDuration(300, 400, 500) == 1000
  {
    ExactDistanceDuration(300, 400, 500, 500);
  }

  /** From a highlight centred at (0, 0) to one centred at (300, 400) at 500 px/s: 1000 ms. */
  lemma TransitionDurationExample()
    ensures TransitionDuration(500, Rect(-10, -10, 10, 10), Rect(290, 390, 310, 410)) == 1000
  {
    var a, b := Rect(-10, -10, 10, 10), Rect(290, 390, 310, 410);
    assert a.CenterX() == 0 && a.CenterY() == 0;
    assert b.CenterX() == 300 && b.CenterY() == 400;
    TravelDurationExample();
  }

  /** The duration does not depend on the direction of travel. */
  lemma TransitionDurationSymmetric(velocity: int, a: Rect, b: Rect)
    ensures TransitionDuration(velocity, a, b) == TransitionDuration(velocity, b, a)
  {
    if velocity > 0 {
      var dx, dy := b.CenterX() - a.CenterX(), b.CenterY() - a.CenterY();
      assert (-dx) * (-dx) + (-dy) * (-dy) == dx * dx + dy * dy;
    }
  }

  /** A travel over no distance takes no time. */
  lemma SamePlaceIsInstant(velocity: int, r: Rect)
    ensures TransitionDuration(velocity, r, r) == 0
  {
    if velocity > 0 {
      IsqrtUnique(0, 0);
    }
  }
}
