/**
 * The default scaling strategy of the task pool (pkg/taskpool/scale.go).
 *
 * The source compares `float64` quotients with thresholds; here the quotient
 * is an exact `real`, and the IEEE 754 results of dividing by zero are written
 * out: x/0 is +Inf for x > 0, -Inf for x < 0 and NaN for x = 0, and NaN
 * compares false with everything.
 */
module ScaleStrategy {

  /** The fields of DefaultScaleStrategy. */
  datatype Strategy = Strategy(
    scaleUpThreshold: real,
    scaleDownThreshold: real,
    scaleUpStep: int,
    scaleDownStep: int,
    queueCapacity: int)

  /** NewDefaultScaleStrategy: thresholds 0.8 / 0.2, steps 2 / 1. */
  function NewDefault(queueCapacity: int): (s: Strategy)
    ensures s.scaleUpThreshold == 0.8 && s.scaleDownThreshold == 0.2
    ensures s.scaleUpStep == 2 && s.scaleDownStep == 1
    ensures s.queueCapacity == queueCapacity
  {
    Strategy(0.8, 0.2, 2, 1, queueCapacity)
  }

  /** `float64(n) / float64(d) > t` for a finite threshold t. */
  predicate QuotientAbove(n: int, d: int, t: real)
  {
    if d != 0 then (n as real) / (d as real) > t else n > 0
  }

  /** `float64(n) / float64(d) < t` for a finite threshold t. */
  predicate QuotientBelow(n: int, d: int, t: real)
  {
    if d != 0 then (n as real) / (d as real) < t else n < 0
  }

  /** For a positive divisor, comparing the quotient with t is comparing the dividend with t times the divisor. */
  lemma QuotientCompare(n: int, d: int, t: real)
    requires d > 0
    ensures QuotientAbove(n, d, t) <==> (n as real) > t * (d as real)
    ensures QuotientBelow(n, d, t) <==> (n as real) < t * (d as real)
  {
    var q := (n as real) / (d as real);
    assert q * (d as real) == n as real;
    if q > t {
      assert q * (d as real) > t * (d as real);
    } else {
      assert q * (d as real) <= t * (d as real);
    }
    if q < t {
      assert q * (d as real) < t * (d as real);
    } else {
      assert q * (d as real) >= t * (d as real);
    }
  }

  /** ShouldScaleUp: never at or above the maximum; otherwise iff the queue usage exceeds the threshold. */
  function ShouldScaleUp(s: Strategy, queueLen: int, runningTasks: int, currentWorkers: int, maxWorkers: int): (up: bool)
    ensures currentWorkers >= maxWorkers ==> !up
  {
    if currentWorkers >= maxWorkers then false
    else QuotientAbove(queueLen, s.queueCapacity, s.scaleUpThreshold)
  }

  /** Below the maximum and with a positive capacity, scaling up is decided by queueLen > threshold * capacity. */
  lemma ScaleUpIffQueueUsage(s: Strategy, queueLen: int, runningTasks: int, currentWorkers: int, maxWorkers: int)
    requires currentWorkers < maxWorkers && s.queueCapacity > 0
    ensures ShouldScaleUp(s, queueLen, runningTasks, currentWorkers, maxWorkers)
            <==> (queueLen as real) > s.scaleUpThreshold * (s.queueCapacity as real)
  {
    QuotientCompare(queueLen, s.queueCapacity, s.scaleUpThreshold);
  }

  /** ShouldScaleDown: never at or below the minimum; otherwise iff the queue is nearly empty and few workers are busy. */
  function ShouldScaleDown(s: Strategy, queueLen: int, runningTasks: int, currentWorkers: int, minWorkers: int): (down: bool)
    ensures currentWorkers <= minWorkers ==> !down
  {
    if currentWorkers <= minWorkers then false
    else QuotientBelow(queueLen, s.queueCapacity, s.scaleDownThreshold)
         && QuotientBelow(runningTasks, currentWorkers, 0.5)
  }

  /** Above the minimum (with positive capacity and worker count), scaling down needs
      queueLen < threshold * capacity and fewer than half of the workers busy. */
  lemma ScaleDownIffIdle(s: Strategy, queueLen: int, runningTasks: int, currentWorkers: int, minWorkers: int)
    requires currentWorkers > minWorkers && s.queueCapacity > 0 && currentWorkers > 0
    ensures ShouldScaleDown(s, queueLen, runningTasks, currentWorkers, minWorkers)
            <==> (queueLen as real) < s.scaleDownThreshold * (s.queueCapacity as real)
                 && 2 * runningTasks < currentWorkers
  {
    QuotientCompare(queueLen, s.queueCapacity, s.scaleDownThreshold);
    QuotientCompare(runningTasks, currentWorkers, 0.5);
  }

  /** ScaleUpCount: the step, cut so that current + count does not pass max. */
  function ScaleUpCount(s: Strategy, current: int, max: int): (count: int)
    ensures count <= s.scaleUpStep && current + count <= max
    ensures count == s.scaleUpStep || current + count == max
  {
    var count := s.scaleUpStep;
    if current + count > max then max - current else count
  }

  /** ScaleDownCount: the step, cut so that current - count does not go below min. */
  function ScaleDownCount(s: Strategy, current: int, min: int): (count: int)
    ensures count <= s.scaleDownStep && current - count >= min
    ensures count == s.scaleDownStep || current - count == min
  {
    var count := s.scaleDownStep;
    if current - count < min then current - min else count
  }

  /** With the defaults and a worker pool below its maximum, an 81% full queue scales up and an 80% full one does not. */
  lemma DefaultThresholdBoundary()
    ensures ShouldScaleUp(NewDefault(100), 81, 0, 1, 4)
    ensures !ShouldScaleUp(NewDefault(100), 80, 0, 1, 4)
    ensures ShouldScaleDown(NewDefault(100), 19, 1, 3, 1)
    ensures !ShouldScaleDown(NewDefault(100), 20, 1, 3, 1)
  {
  }
}
