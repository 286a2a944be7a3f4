/**
 * The window arithmetic of the congestion package: the clamp shared by all
 * controllers (pkg/congestion/controller.go), the algorithm dispatch, and the
 * TCP Reno controller (pkg/congestion/reno.go), which follows sections 3.1
 * and 3.2 of RFC 5681 (slow start, congestion avoidance, fast retransmit and
 * fast recovery) with FlightSize replaced by cwnd.
 *
 * Windows and counters are unbounded integers; Go's `/` on int truncates
 * toward zero, which Quo writes out. Round-trip times, the smoothed RTT and
 * the time-based send rate are not part of this model.
 */
module Congestion {
  import opened Wrappers

  function Abs(x: int): nat
  {
    if x < 0 then -x else x
  }

  /** Go's integer division: the quotient truncated toward zero. */
  function Quo(a: int, b: int): (q: int)
    requires b != 0
    ensures a >= 0 && b > 0 ==> q == a / b
  {
    if (a < 0) == (b < 0) then Abs(a) / Abs(b) else -(Abs(a) / Abs(b))
  }

  /** The window setCongestionWindow stores for a requested window c. */
  function ClampWindow(c: int, packetSize: int, maxCWnd: int): (w: int)
  {
    var lower := if c < 2 * packetSize then 2 * packetSize else c;
    if lower > maxCWnd then maxCWnd else lower
  }

  /** The clamp is min(max(c, 2·packetSize), maxCWnd): never above maxCWnd, never below
      2·packetSize when that fits, and the request itself when it already lies in range. */
  lemma ClampWindowBounds(c: int, packetSize: int, maxCWnd: int)
    ensures ClampWindow(c, packetSize, maxCWnd) <= maxCWnd
    ensures 2 * packetSize <= maxCWnd ==> 2 * packetSize <= ClampWindow(c, packetSize, maxCWnd)
    ensures 2 * packetSize <= c <= maxCWnd ==> ClampWindow(c, packetSize, maxCWnd) == c
    ensures c < 2 * packetSize <= maxCWnd ==> ClampWindow(c, packetSize, maxCWnd) == 2 * packetSize
    ensures c > maxCWnd ==> ClampWindow(c, packetSize, maxCWnd) == maxCWnd
  {
  }

  /** Clamping twice is clamping once, as long as the floor fits under the ceiling. */
  lemma ClampWindowIdempotent(c: int, packetSize: int, maxCWnd: int)
    requires 2 * packetSize <= maxCWnd
    ensures ClampWindow(ClampWindow(c, packetSize, maxCWnd), packetSize, maxCWnd)
            == ClampWindow(c, packetSize, maxCWnd)
  {
    ClampWindowBounds(c, packetSize, maxCWnd);
    ClampWindowBounds(ClampWindow(c, packetSize, maxCWnd), packetSize, maxCWnd);
  }

  /** A larger request never yields a smaller window. */
  lemma ClampWindowMonotone(c: int, d: int, packetSize: int, maxCWnd: int)
    requires c <= d
    ensures ClampWindow(c, packetSize, maxCWnd) <= ClampWindow(d, packetSize, maxCWnd)
  {
  }

  /** The slow start threshold after a loss or the third duplicate ACK: half the window,
      but at least two segments (equation (4) of RFC 5681, with cwnd for FlightSize). */
  function ReducedThreshold(cwnd: int, packetSize: int): (t: int)
    ensures t >= 2 * packetSize
    ensures t == 2 * packetSize || t == Quo(cwnd, 2)
  {
    var half := Quo(cwnd, 2);
    if half < 2 * packetSize then 2 * packetSize else half
  }

  /** For a window of at least four segments the threshold is exactly half the window (rounded down). */
  lemma ReducedThresholdHalves(cwnd: int, packetSize: int)
    requires cwnd >= 4 * packetSize && cwnd >= 0
    ensures ReducedThreshold(cwnd, packetSize) == cwnd / 2
    ensures 2 * ReducedThreshold(cwnd, packetSize) <= cwnd
  {
  }

  /** The growth of one new ACK in congestion avoidance, SMSS·SMSS/cwnd (equation (3) of
      RFC 5681), is at most one segment once the window holds a segment. */
  lemma AvoidanceIncrementAtMostOneSegment(cwnd: int, packetSize: int)
    requires 0 <= packetSize <= cwnd && cwnd > 0
    ensures 0 <= Quo(packetSize * packetSize, cwnd) <= packetSize
  {
    assert packetSize * packetSize <= packetSize * cwnd by {
      MulLeftMonotone(packetSize, packetSize, cwnd);
    }
    DivBelow(packetSize * packetSize, cwnd, packetSize);
  }

  lemma MulLeftMonotone(k: int, a: int, b: int)
    requires k >= 0 && a <= b
    ensures k * a <= k * b
  {
  }

  lemma DivBelow(n: int, d: int, bound: int)
    requires n >= 0 && d > 0 && n <= bound * d
    ensures 0 <= n / d <= bound
  {
  }

  /** The names NewController accepts. */
  datatype AlgorithmType = Cubic | BBR | Reno | Vegas

  function AlgorithmName(a: AlgorithmType): string
  {
    match a
    case Cubic => "cubic"
    case BBR => "bbr"
    case Reno => "reno"
    case Vegas => "vegas"
  }

  /** The controller NewController builds: which algorithm, with the arguments it was given. */
  datatype ControllerSpec = ControllerSpec(algorithm: AlgorithmType, initialCWnd: int, maxCWnd: int, packetSize: int)

  datatype ControllerError = UnsupportedAlgorithm(name: string)

  /** NewController: the controller of the named algorithm, or an error for any other name. */
  function NewController(algorithm: string, initialCWnd: int, maxCWnd: int, packetSize: int): (r: Result<ControllerSpec, ControllerError>)
    ensures r.Ok? ==> AlgorithmName(r.value.algorithm) == algorithm
    ensures r.Ok? ==> r.value.initialCWnd == initialCWnd && r.value.maxCWnd == maxCWnd && r.value.packetSize == packetSize
    ensures r.Err? ==> r.error == UnsupportedAlgorithm(algorithm)
  {
    if algorithm == "cubic" then Ok(ControllerSpec(Cubic, initialCWnd, maxCWnd, packetSize))
    else if algorithm == "bbr" then Ok(ControllerSpec(BBR, initialCWnd, maxCWnd, packetSize))
    else if algorithm == "reno" then Ok(ControllerSpec(Reno, initialCWnd, maxCWnd, packetSize))
    else if algorithm == "vegas" then Ok(ControllerSpec(Vegas, initialCWnd, maxCWnd, packetSize))
    else Err(UnsupportedAlgorithm(algorithm))
  }

  /** Every one of the four names is accepted and builds its own algorithm; nothing else is accepted. */
  lemma NewControllerAcceptsExactlyTheFour(algorithm: string, initialCWnd: int, maxCWnd: int, packetSize: int)
    ensures NewController(algorithm, initialCWnd, maxCWnd, packetSize).Ok?
            <==> exists a: AlgorithmType :: AlgorithmName(a) == algorithm
    ensures forall a: AlgorithmType ::
              NewController(AlgorithmName(a), initialCWnd, maxCWnd, packetSize)
              == Ok(ControllerSpec(a, initialCWnd, maxCWnd, packetSize))
  {
    if NewController(algorithm, initialCWnd, maxCWnd, packetSize).Ok? {
      var a := NewController(algorithm, initialCWnd, maxCWnd, packetSize).value.algorithm;
      assert AlgorithmName(a) == algorithm;
    }
  }

  /** The snapshot updateStats copies, without the time- and RTT-based fields. */
  datatype Stats = Stats(
    congestionWindow: int,
    ssthresh: int,
    inFlight: int,
    packetsSent: int,
    packetsLost: int,
    fastRetransmits: int,
    timeoutRetransmits: int,
    lossRate: real)

  /** The Reno controller together with the BaseController it embeds. */
  class RenoController {
    var cwnd: int
    var ssthresh: int
    var inFlight: int
    var maxCWnd: int
    var packetSize: int
    var sentBytes: int
    var lostBytes: int
    var packetsSent: int
    var packetsLost: int
    var fastRetransmits: int
    var timeoutRetransmits: int
    var dupAckCount: int
    var stats: Stats

    /** The floor of setCongestionWindow fits under its ceiling, so the window lies between them. */
    predicate WindowInBounds()
      reads this
    {
      2 * packetSize <= maxCWnd ==> 2 * packetSize <= cwnd <= maxCWnd
    }

    /** NewRenoController / NewBaseController: the initial window as given (not clamped),
        ssthresh 65536, every counter at zero. */
    constructor (initialCWnd: int, maxCWnd: int, packetSize: int)
      ensures cwnd == initialCWnd && ssthresh == 65536
      ensures this.maxCWnd == maxCWnd && this.packetSize == packetSize
      ensures inFlight == 0 && sentBytes == 0 && lostBytes == 0 && dupAckCount == 0
      ensures packetsSent == 0 && packetsLost == 0 && fastRetransmits == 0 && timeoutRetransmits == 0
      ensures stats == Stats(0, 0, 0, 0, 0, 0, 0, 0.0)
    {
      cwnd := initialCWnd;
      ssthresh := 65536;
      this.maxCWnd := maxCWnd;
      this.packetSize := packetSize;
      inFlight := 0;
      sentBytes := 0;
      lostBytes := 0;
      packetsSent := 0;
      packetsLost := 0;
      fastRetransmits := 0;
      timeoutRetransmits := 0;
      dupAckCount := 0;
      stats := Stats(0, 0, 0, 0, 0, 0, 0, 0.0);
    }

    /** setCongestionWindow: cwnd becomes the clamp of the request; nothing else changes. */
    method SetCongestionWindow(c: int)
      modifies this
      ensures cwnd == ClampWindow(c, packetSize, maxCWnd)
      ensures WindowInBounds()
      ensures ssthresh == old(ssthresh) && packetSize == old(packetSize) && maxCWnd == old(maxCWnd)
      ensures inFlight == old(inFlight) && dupAckCount == old(dupAckCount) && stats == old(stats)
      ensures sentBytes == old(sentBytes) && lostBytes == old(lostBytes)
      ensures packetsSent == old(packetsSent) && packetsLost == old(packetsLost)
      ensures fastRetransmits == old(fastRetransmits) && timeoutRetransmits == old(timeoutRetransmits)
    {
      var w := c;
      var minCWnd := 2 * packetSize;
      if w < minCWnd {
        w := minCWnd;
      }
      if w > maxCWnd {
        w := maxCWnd;
      }
      cwnd := w;
      ClampWindowBounds(c, packetSize, maxCWnd);
    }

    /** updateStats: the snapshot is refreshed; the loss rate only when bytes were sent. */
    method UpdateStats()
      modifies this
      ensures stats.congestionWindow == cwnd && stats.ssthresh == ssthresh && stats.inFlight == inFlight
      ensures stats.packetsSent == packetsSent && stats.packetsLost == packetsLost
      ensures stats.fastRetransmits == fastRetransmits && stats.timeoutRetransmits == timeoutRetransmits
      ensures sentBytes > 0 ==> stats.lossRate == (lostBytes as real) / (sentBytes as real)
      ensures sentBytes <= 0 ==> stats.lossRate == old(stats.lossRate)
      ensures cwnd == old(cwnd) && ssthresh == old(ssthresh) && packetSize == old(packetSize) && maxCWnd == old(maxCWnd)
      ensures inFlight == old(inFlight) && dupAckCount == old(dupAckCount)
      ensures sentBytes == old(sentBytes) && lostBytes == old(lostBytes)
      ensures packetsSent == old(packetsSent) && packetsLost == old(packetsLost)
      ensures fastRetransmits == old(fastRetransmits) && timeoutRetransmits == old(timeoutRetransmits)
    {
      var rate := stats.lossRate;
      if sentBytes > 0 {
        rate := (lostBytes as real) / (sentBytes as real);
      }
      stats := Stats(cwnd, ssthresh, inFlight, packetsSent, packetsLost, fastRetransmits, timeoutRetransmits, rate);
    }

    /** OnPacketSent: the bytes are in flight and counted as sent, one more packet is sent. */
    method OnPacketSent(size: int)
      modifies this
      ensures inFlight == old(inFlight) + size && sentBytes == old(sentBytes) + size
      ensures packetsSent == old(packetsSent) + 1
      ensures cwnd == old(cwnd) && ssthresh == old(ssthresh) && packetSize == old(packetSize) && maxCWnd == old(maxCWnd)
      ensures dupAckCount == old(dupAckCount) && stats == old(stats) && lostBytes == old(lostBytes)
      ensures packetsLost == old(packetsLost)
      ensures fastRetransmits == old(fastRetransmits) && timeoutRetransmits == old(timeoutRetransmits)
    {
      inFlight := inFlight + size;
      sentBytes := sentBytes + size;
      packetsSent := packetsSent + 1;
    }

    /** OnAckReceived. An ACK of zero bytes is a duplicate: the third one halves the threshold
        and inflates the window by three segments (fast retransmit, fast recovery); later ones
        add a segment each. Any other ACK ends the duplicate run and grows the window by a
        segment below ssthresh (slow start) or by packetSize²/cwnd above it (congestion
        avoidance). The window is clamped in every case. The source divides by cwnd in
        congestion avoidance, so a zero window there is excluded. */
    method OnAckReceived(ackSize: int)
      requires ackSize == 0 || cwnd < ssthresh || cwnd != 0
      modifies this
      ensures inFlight == old(inFlight) - ackSize
      ensures WindowInBounds()
      ensures ackSize == 0 ==> dupAckCount == old(dupAckCount) + 1
      ensures ackSize == 0 && dupAckCount == 3 ==>
                && ssthresh == ReducedThreshold(old(cwnd), packetSize)
                && cwnd == ClampWindow(ssthresh + 3 * packetSize, packetSize, maxCWnd)
                && fastRetransmits == old(fastRetransmits) + 1
      ensures ackSize == 0 && dupAckCount > 3 ==>
                cwnd == ClampWindow(old(cwnd) + packetSize, packetSize, maxCWnd)
      ensures ackSize == 0 && dupAckCount < 3 ==> cwnd == ClampWindow(old(cwnd), packetSize, maxCWnd)
      ensures !(ackSize == 0 && dupAckCount == 3) ==>
                ssthresh == old(ssthresh) && fastRetransmits == old(fastRetransmits)
      ensures ackSize != 0 ==> dupAckCount == 0
      ensures ackSize != 0 && old(cwnd) < old(ssthresh) ==>
                cwnd == ClampWindow(old(cwnd) + packetSize, packetSize, maxCWnd)
      ensures ackSize != 0 && old(cwnd) >= old(ssthresh) ==>
                cwnd == ClampWindow(old(cwnd) + Quo(packetSize * packetSize, old(cwnd)), packetSize, maxCWnd)
      ensures packetSize == old(packetSize) && maxCWnd == old(maxCWnd)
      ensures sentBytes == old(sentBytes) && lostBytes == old(lostBytes)
      ensures packetsSent == old(packetsSent) && packetsLost == old(packetsLost)
      ensures timeoutRetransmits == old(timeoutRetransmits)
      ensures stats == Stats(cwnd, ssthresh, inFlight, packetsSent, packetsLost, fastRetransmits, timeoutRetransmits,
                             if sentBytes > 0 then (lostBytes as real) / (sentBytes as real) else old(stats.lossRate))
    {
      inFlight := inFlight - ackSize;
      if ackSize == 0 {
        dupAckCount := dupAckCount + 1;
        if dupAckCount == 3 {
          fastRetransmits := fastRetransmits + 1;
          ssthresh := ReducedThreshold(cwnd, packetSize);
          cwnd := ssthresh + 3 * packetSize;
        } else if dupAckCount > 3 {
          cwnd := cwnd + packetSize;
        }
      } else {
        dupAckCount := 0;
        if cwnd < ssthresh {
          cwnd := cwnd + packetSize;
        } else {
          cwnd := cwnd + Quo(packetSize * packetSize, cwnd);
        }
      }
      SetCongestionWindow(cwnd);
      UpdateStats();
    }

    /** OnPacketLost (a retransmission timeout): a segment of lost bytes is counted, the
        threshold is halved and the window falls to it, clamped. */
    method OnPacketLost()
      modifies this
      ensures lostBytes == old(lostBytes) + packetSize
      ensures packetsLost == old(packetsLost) + 1 && timeoutRetransmits == old(timeoutRetransmits) + 1
      ensures ssthresh == ReducedThreshold(old(cwnd), packetSize)
      ensures cwnd == ClampWindow(ssthresh, packetSize, maxCWnd)
      ensures WindowInBounds()
      ensures packetSize == old(packetSize) && maxCWnd == old(maxCWnd)
      ensures inFlight == old(inFlight) && dupAckCount == old(dupAckCount) && sentBytes == old(sentBytes)
      ensures packetsSent == old(packetsSent) && fastRetransmits == old(fastRetransmits)
      ensures stats == Stats(cwnd, ssthresh, inFlight, packetsSent, packetsLost, fastRetransmits, timeoutRetransmits,
                             if sentBytes > 0 then (lostBytes as real) / (sentBytes as real) else old(stats.lossRate))
    {
      lostBytes := lostBytes + packetSize;
      packetsLost := packetsLost + 1;
      timeoutRetransmits := timeoutRetransmits + 1;
      ssthresh := ReducedThreshold(cwnd, packetSize);
      cwnd := ssthresh;
      SetCongestionWindow(cwnd);
      UpdateStats();
    }

    /** GetCongestionWindow. */
    function GetCongestionWindow(): (w: int)
      reads this
      ensures WindowInBounds() ==> (2 * packetSize <= maxCWnd ==> 2 * packetSize <= w <= maxCWnd)
    {
      cwnd
    }
  }

  /** After a loss the window never exceeds what it was (or the floor), as RFC 5681 section 3.1 requires
      of a retransmission timeout, once it held at least the floor and the floor fits. */
  lemma LossNeverGrowsWindow(cwnd: int, packetSize: int, maxCWnd: int)
    requires packetSize >= 0 && 2 * packetSize <= maxCWnd && 2 * packetSize <= cwnd
    ensures ClampWindow(ReducedThreshold(cwnd, packetSize), packetSize, maxCWnd) <= cwnd
  {
    ClampWindowBounds(ReducedThreshold(cwnd, packetSize), packetSize, maxCWnd);
  }
}
