/** What the probing loops know of Pinger.Ping. */
module Pinger {

  datatype PingResult = PingResult(err: bool, rttMs: real)

  /** An error, or an answer slower than a positive MaxLatency. */
  predicate Fails(maxLatency: real, res: PingResult) {
    res.err || (maxLatency > 0.0 && res.rttMs > maxLatency)
  }
}
