/**
 The integer control structure of the two escape-time loops. The
 floating-point orbit z(0), z(1), ... is not modelled: each loop receives its
 per-step test as a function of the number of updates `z := z * z + c` done
 so far, so `escaped(t)` is the Mandelbrot test `|z(t)| > 2` and `inside(k)`
 is the Julia test `|z(k)|^2 < 4`. What is left is bounded counter logic.
 */
module Escape {

  /** The least k in [from, n) with p(k) == v, or n when there is none. */
  function FirstWith(p: nat -> bool, v: bool, from: nat, n: nat): (k: nat)
    requires from <= n
    ensures from <= k <= n
    ensures forall s | from <= s < k :: p(s) != v
    ensures k < n ==> p(k) == v
    decreases n - from
  {
    if from == n then n
    else if p(from) == v then from
    else FirstWith(p, v, from + 1, n)
  }

  /**
   The index the Mandelbrot loop reports. The loop runs t = 0, 1, ... and
   records t after every step that has not escaped yet, so the last
   recorded index wins: iterations - 1 when the orbit never escapes, t - 1
   when it first escapes at step t >= 1, and 0 when it escapes at once.
   */
  function MandelbrotIndex(iterations: nat, escaped: nat -> bool): (i: nat)
    ensures iterations == 0 ==> i == 0
    ensures iterations > 0 ==> i <= iterations - 1
    ensures escaped(0) ==> i == 0
    ensures iterations > 0 && (forall t | 0 <= t < iterations :: !escaped(t)) ==> i == iterations - 1
    ensures forall t | 1 <= t < iterations :: escaped(t) && (forall s | 0 <= s < t :: !escaped(s)) ==> i == t - 1
  {
    var first := FirstWith(escaped, true, 0, iterations);
    if first == 0 then 0 else first - 1
  }

  /** The ascending Mandelbrot loop: `for t in 0..iterations { if escaped { break } ...; i = t }`. */
  method MandelbrotCount(iterations: nat, escaped: nat -> bool) returns (i: nat)
    ensures i == MandelbrotIndex(iterations, escaped)
  {
    i := 0;
    for t := 0 to iterations
      invariant forall s | 0 <= s < t :: !escaped(s)
      invariant i == if t == 0 then 0 else t - 1
    {
      if escaped(t) {
        return;
      }
      i := t;
    }
  }

  /**
   The value the Julia counter ends with. It starts at `iterations` and
   drops by one per step while the orbit stays inside the disk of radius 2
   and the counter is above 1, so it ends in [1, iterations]: `iterations`
   when the test fails at once, 1 when it never fails, and iterations - k
   when it first fails after k steps.
   */
  function JuliaIndex(iterations: nat, inside: nat -> bool): (i: nat)
    ensures iterations == 0 ==> i == 0
    ensures iterations > 0 ==> 1 <= i <= iterations
    ensures !inside(0) ==> i == iterations
    ensures iterations > 0 && (forall k | 0 <= k < iterations - 1 :: inside(k)) ==> i == 1
    ensures forall k | 0 <= k < iterations - 1 :: !inside(k) && (forall s | 0 <= s < k :: inside(s)) ==> i == iterations - k
  {
    if iterations == 0 then 0
    else iterations - FirstWith(inside, false, 0, iterations - 1)
  }

  /**
   The descending Julia loop: `while inside && i > 1 { ...; i -= 1 }`.
   `steps` is the number of times the body ran; the counter falls by
   exactly that much, and the loop ends because the counter strictly
   decreases.
   */
  method JuliaCount(iterations: nat, inside: nat -> bool) returns (i: nat, steps: nat)
    ensures i == JuliaIndex(iterations, inside)
    ensures i + steps == iterations
  {
    i := iterations;
    steps := 0;
    while inside(steps) && i > 1
      invariant i + steps == iterations
      invariant iterations > 0 ==> i >= 1
      invariant forall s | 0 <= s < steps :: inside(s)
      decreases i
    {
      i := i - 1;
      steps := steps + 1;
    }
  }
}
