/** The round-trip-time estimator (`ikcp_update_ack`). Signed 32-bit intermediates are
    written with `I32`, so that an overflow would show; the bound below rules it out. */
module Rtt {
  import opened Word32

  const RTO_MAX: int := 60000

  datatype Rtt = Rtt(srtt: int, rttval: int, rto: int)

  function Smooth(r: Rtt, rtt: int): (int, int) {
    if r.srtt == 0 then (rtt, TruncDiv(rtt, 2))
    else
      var d := I32(rtt - r.srtt);
      var delta := if d < 0 then -d else d;
      var srtt := TruncDiv(I32(I32(7 * r.srtt) + rtt), 8);
      (if srtt < 1 then 1 else srtt, I32(TruncDiv(I32(3 * r.rttval) + delta, 4)))
  }

  function UpdateAck(r: Rtt, interval: int, minRto: int, rtt: int): Rtt {
    var (srtt, rttval) := Smooth(r, rtt);
    var rto := W(srtt + Max(interval, W(4 * rttval)));
    Rtt(srtt, rttval, Bound(minRto, rto, RTO_MAX))
  }

  function UpdateAll(r: Rtt, interval: int, minRto: int, samples: seq<int>): Rtt {
    if samples == [] then r
    else UpdateAck(UpdateAll(r, interval, minRto, samples[..|samples| - 1]), interval, minRto, samples[|samples| - 1])
  }

  predicate Bounded(r: Rtt, limit: int) {
    0 <= r.srtt <= Max(limit, 1) && 0 <= r.rttval <= Max(limit, 1)
  }

  /** The timeout after the first sample R, section 2.2 of RFC 6298: R + max(G, 4 R/2), in bounds. */
  function FirstRto(interval: int, minRto: int, sample: int): int {
    var rto := sample + Max(interval, 4 * (sample / 2));
    if rto > RTO_MAX then RTO_MAX else if rto < minRto then minRto else rto
  }

  /** One sample, the first and any other: the formulas of section 2 of RFC 6298 with gains 1/8
      and 1/4, computed without overflow, and within the same bound. */
  lemma SampleKeepsBound(r: Rtt, interval: int, minRto: int, rtt: int, limit: int)
    requires Bounded(r, limit) && 0 <= rtt <= limit < 0x1000_0000
    requires 0 <= interval <= 5000 && 0 < minRto <= RTO_MAX
    ensures Bounded(UpdateAck(r, interval, minRto, rtt), limit)
    ensures r.srtt > 0 ==>
              var u := UpdateAck(r, interval, minRto, rtt);
              && u.srtt == Max(1, (7 * r.srtt + rtt) / 8)
              && u.rttval == (3 * r.rttval + Max(rtt - r.srtt, r.srtt - rtt)) / 4
              && u.rto == Bound(minRto, u.srtt + Max(interval, 4 * u.rttval), RTO_MAX)
    ensures r.srtt == 0 ==>
              var u := UpdateAck(r, interval, minRto, rtt);
              u.srtt == rtt && u.rttval == rtt / 2 && u.rto == FirstRto(interval, minRto, rtt)
    ensures minRto <= UpdateAck(r, interval, minRto, rtt).rto <= RTO_MAX
  {
    if r.srtt > 0 { SmoothExact(r, rtt, limit); }
    var (srtt, rttval) := Smooth(r, rtt);
    RtoExact(srtt, rttval, interval);
  }

  lemma RtoExact(srtt: int, rttval: int, interval: int)
    requires 0 <= srtt <= 0x1000_0000 && 0 <= rttval <= 0x1000_0000 && 0 <= interval <= 5000
    ensures W(srtt + Max(interval, W(4 * rttval))) == srtt + Max(interval, 4 * rttval)
  {
  }

  /** No intermediate of a smoothing step overflows. */
  lemma SmoothExact(r: Rtt, rtt: int, limit: int)
    requires Bounded(r, limit) && 0 <= rtt <= limit < 0x1000_0000 && r.srtt > 0
    ensures Smooth(r, rtt) == (Max(1, (7 * r.srtt + rtt) / 8), (3 * r.rttval + Max(rtt - r.srtt, r.srtt - rtt)) / 4)
    ensures 0 <= (7 * r.srtt + rtt) / 8 <= Max(limit, 1)
    ensures 0 <= (3 * r.rttval + Max(rtt - r.srtt, r.srtt - rtt)) / 4 <= Max(limit, 1)
  {
    var delta := Max(rtt - r.srtt, r.srtt - rtt);
    I32Small(rtt - r.srtt);
    I32Small(7 * r.srtt);
    I32Small(7 * r.srtt + rtt);
    I32Small(3 * r.rttval);
    I32Small((3 * r.rttval + delta) / 4);
  }

  lemma I32Small(x: int)
    requires -HALF <= x < HALF
    ensures I32(x) == x
  {
  }

  /** For every sequence of samples up to `limit`, the estimates never leave the bound. */
  lemma {:induction false} EstimatorBound(r: Rtt, interval: int, minRto: int, samples: seq<int>, limit: int)
    requires Bounded(r, limit) && limit < 0x1000_0000
    requires 0 <= interval <= 5000 && 0 < minRto <= RTO_MAX
    requires forall i :: 0 <= i < |samples| ==> 0 <= samples[i] <= limit
    ensures Bounded(UpdateAll(r, interval, minRto, samples), limit)
    ensures samples != [] ==> minRto <= UpdateAll(r, interval, minRto, samples).rto <= RTO_MAX
  {
    if samples != [] {
      var init := samples[..|samples| - 1];
      EstimatorBound(r, interval, minRto, init, limit);
      SampleKeepsBound(UpdateAll(r, interval, minRto, init), interval, minRto, samples[|samples| - 1], limit);
    }
  }
}
