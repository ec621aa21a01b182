/** BBRv3: modes and PROBE_BW phases, the two-slot bandwidth filter, short-term bounds, and the
    fixed-point arithmetic that finds the packet at which losses went too high. Rate samples, clocks,
    the congestion window and random waits are inputs of each step. */
module Bbr {

  const BBR_UNIT := 256
  const U32_MAX := 0xFFFF_FFFF
  const LOSS_THRESH := 5           // 256 * 2 / 100
  const ECN_THRESH := 128
  const BETA := 76                 // 256 * 30 / 100
  const FULL_BW_THRESH := 320
  const FULL_BW_CNT := 3
  const FULL_LOSS_CNT := 6
  const FULL_ECN_CNT := 2
  const HEADROOM := 38             // 256 * 15 / 100
  const CWND_MIN_TARGET := 4

  type u32 = x: int | 0 <= x <= U32_MAX

  datatype Mode = Startup | Drain | ProbeBw | ProbeRtt
  datatype Cycle = Up | Down | Cruise | Refill
  datatype AckPhase = Init | Refilling | ProbeStarting | ProbeFeedback | ProbeStopping

  /** What bbr_get_phase reports. */
  datatype Phase = InStartup | InDrain | InProbeRtt | InUp | InDown | InCruise | InRefill

  function PhaseOf(mode: Mode, cycle: Cycle): Phase {
    match mode
    case Startup => InStartup
    case Drain => InDrain
    case ProbeRtt => InProbeRtt
    case ProbeBw => match cycle
      case Up => InUp
      case Down => InDown
      case Cruise => InCruise
      case Refill => InRefill
  }

  /** The state diagram, with the phases of PROBE_BW. */
  predicate Edge(a: Phase, b: Phase) {
    match b
    case InStartup => a == InProbeRtt
    case InDrain => a == InStartup
    case InProbeRtt => a != InProbeRtt
    case InDown => a == InDrain || a == InUp || a == InProbeRtt
    case InCruise => a == InDown
    case InRefill => a == InDown || a == InCruise
    case InUp => a == InRefill
  }

  ghost predicate Walk(p: seq<Phase>) {
    p != [] && p[0] == InStartup && forall i :: 1 <= i < |p| ==> Edge(p[i - 1], p[i])
  }

  ghost predicate Prefix(a: seq<Phase>, b: seq<Phase>) {
    |a| <= |b| && forall i :: 0 <= i < |a| ==> b[i] == a[i]
  }

  /** One acknowledgement with everything the step reads from the socket. Booleans stand for comparisons of
      clocks and counters that the model does not hold. */
  datatype Ack = Ack(rs: Sample, path: Path, ecn: Ecn, rtt: Rtt)

  /** struct rate_sample, with the bandwidth computed from it. */
  datatype Sample = Sample(bw: u32, appLimited: bool, valid: bool, lost: int, losses: nat, txInFlight: u32,
                           delivered: u32,
                           deliveredCe: nat, ackedSacked: u32, tlpRetrans: bool, roundStart: bool, lossRoundStart: bool)

  datatype Path = Path(cwnd: u32, cwndLimited: bool, caState: CaState, inNet: u32, bdp: u32, target: u32,
                       timeToProbe: bool, reprobeRounds: nat, targetReached: bool)

  /** The congestion avoidance state of the TCP stack. */
  datatype CaState = CaOpen | CaDisorder | CaCwr | CaRecovery | CaLoss
  {
    predicate BelowRecovery() { !CaRecovery? && !CaLoss? }
  }

  datatype Ecn = Ecn(ece: bool, allowed: bool, ceRatio: Option<nat>, cut: u32)

  datatype Rtt = Rtt(probeRttExpired: bool, lowInflight: bool, doneExpired: bool, stamp: nat, minRttSame: bool)

  datatype Option<T> = None | Some(value: T)

  function Min(a: u32, b: u32): u32 { if a < b then a else b }

  function Max(a: u32, b: u32): u32 { if a < b then b else a }

  /** x * gain >> BBR_SCALE, for a gain of at most one. */
  function Scaled(x: u32, gain: nat): (r: u32)
    requires gain <= BBR_UNIT
    ensures r <= x
  {
    ScaledDown(x, gain);
    x * gain / BBR_UNIT
  }

  /** bbr_init_lower_bounds and bbr_loss_lower_bounds for one bound: from its start value down to 1 - beta,
      but not below what was delivered in the latest round. */
  function LossCut(lo: u32, start: u32, latest: u32): (r: u32)
    ensures latest <= r && (lo != U32_MAX ==> r <= Max(latest, lo))
  {
    Max(latest, Scaled(if lo == U32_MAX then start else lo, BBR_UNIT - BETA))
  }

  lemma ScaledDown(x: nat, gain: nat)
    requires gain <= BBR_UNIT
    ensures 0 <= x * gain / BBR_UNIT <= x
  {
    assert x * gain <= x * BBR_UNIT;
  }

  /** bbr_is_inflight_too_high */
  predicate InflightTooHigh(lost: int, txInFlight: u32, delivered: nat, deliveredCe: nat, ecnEligible: bool) {
    || (lost > 0 && txInFlight != 0 && lost > txInFlight * LOSS_THRESH / BBR_UNIT)
    || (deliveredCe > 0 && delivered > 0 && ecnEligible && deliveredCe > delivered * ECN_THRESH / BBR_UNIT)
  }

  function Pow2(n: nat): (r: nat)
    ensures 1 <= r
  {
    if n == 0 then 1 else 2 * Pow2(n - 1)
  }

  /** Packets to be acknowledged for one more packet in flight, when 2^rounds are added per round trip. */
  function Slope(cwnd: u32, rounds: nat): (r: u32)
    ensures 1 <= r <= Max(cwnd, 1)
  {
    SmallerQuotient(cwnd, Pow2(rounds));
    Max(cwnd / Pow2(rounds), 1)
  }

  lemma SmallerQuotient(a: nat, n: nat)
    requires 1 <= n
    ensures 0 <= a / n <= a
  {
  }

  /** Fewer acknowledged packets than the slope asks for give no increment and are all kept. */
  lemma AcksBelow(acks: nat, cnt: nat)
    requires 1 <= cnt
    ensures acks < cnt ==> acks / cnt == 0 && acks % cnt == acks
  {
  }

  // ----- the packet at which losses went too high -----

  /** bbr_inflight_hi_from_lost_skb */
  function InflightHiFromLostSkb(txInFlight: nat, lost: int, pcount: nat): (r: nat)
  {
    var inflightPrev := txInFlight - pcount;
    var lostPrev := lost - pcount;
    if inflightPrev < 0 || lostPrev < 0 then U32_MAX
    else inflightPrev + LostPrefix(inflightPrev, lostPrev)
  }

  /** How many packets of the skb were still within the budget. */
  function LostPrefix(inflightPrev: nat, lostPrev: nat): nat {
    var lossBudget := (inflightPrev * LOSS_THRESH + BBR_UNIT - 1) / BBR_UNIT;
    if lostPrev >= lossBudget then 0 else (lossBudget - lostPrev) * BBR_UNIT / (BBR_UNIT - LOSS_THRESH)
  }

  /** The exact point at which the loss rate reaches the threshold, when `x` packets of the skb count. */
  ghost function Crossing(inflightPrev: nat, lostPrev: nat): real {
    var x := (LOSS_THRESH * inflightPrev - BBR_UNIT * lostPrev) as real / (BBR_UNIT - LOSS_THRESH) as real;
    inflightPrev as real + if x < 0.0 then 0.0 else x
  }

  /** At the crossing the loss rate is the threshold. */
  lemma CrossingIsExact(inflightPrev: nat, lostPrev: nat)
    requires LOSS_THRESH * inflightPrev >= BBR_UNIT * lostPrev
    ensures var x := Crossing(inflightPrev, lostPrev) - inflightPrev as real;
            BBR_UNIT as real * (lostPrev as real + x) == LOSS_THRESH as real * (inflightPrev as real + x)
  {
  }

  /** The bound is less than one packet below the exact crossing. When the skb as a whole made the loss
      rate too high it is at most one packet above what was in flight with the skb. */
  lemma LostSkbBound(txInFlight: u32, lost: int, pcount: nat)
    requires pcount <= txInFlight && pcount <= lost
    ensures Crossing(txInFlight - pcount, lost - pcount) < InflightHiFromLostSkb(txInFlight, lost, pcount) as real + 1.0
    ensures InflightTooHigh(lost, txInFlight, 0, 0, false) ==>
            InflightHiFromLostSkb(txInFlight, lost, pcount) <= txInFlight + 1
  {
    var ip, lp := txInFlight - pcount, lost - pcount;
    PrefixBelow(ip, lp);
    if InflightTooHigh(lost, txInFlight, 0, 0, false) { PrefixAbove(ip, lp, pcount); }
  }

  lemma PrefixBelow(inflightPrev: nat, lostPrev: nat)
    ensures Crossing(inflightPrev, lostPrev) < (inflightPrev + LostPrefix(inflightPrev, lostPrev)) as real + 1.0
  {
    var d, r := LOSS_THRESH * inflightPrev - BBR_UNIT * lostPrev, LostPrefix(inflightPrev, lostPrev);
    assert d < 251 * (r + 1);
    assert (d as real) / 251.0 < (r + 1) as real;
  }

  lemma PrefixAbove(inflightPrev: nat, lostPrev: nat, pcount: nat)
    requires lostPrev + pcount > (inflightPrev + pcount) * LOSS_THRESH / BBR_UNIT
    ensures LostPrefix(inflightPrev, lostPrev) <= pcount + 1
  {
    assert BBR_UNIT * (lostPrev + pcount) > (inflightPrev + pcount) * LOSS_THRESH;
  }

  /** One packet above is reached: the budget is rounded up. */
  lemma OneAboveIsReached()
    ensures InflightTooHigh(106, 5427, 0, 0, false) && InflightHiFromLostSkb(5427, 106, 102) == 5427 + 1
  {
  }

  // ----- the state machine -----

  class Connection {
    var mode: Mode
    var cycleIdx: Cycle
    var ackPhase: AckPhase
    var roundStart: bool
    var fullBwReached: bool
    var fullBwNow: bool
    var fullBw: u32
    var fullBwCnt: nat
    var bwHi0: u32
    var bwHi1: u32
    var bwLo: u32
    var bwLatest: u32
    var inflightHi: u32
    var inflightLo: u32
    var inflightLatest: u32
    var undoBwLo: u32
    var undoInflightLo: u32
    var undoInflightHi: u32
    var lossInRound: bool
    var ecnInRound: bool
    var lossInCycle: bool
    var ecnInCycle: bool
    var lossRoundStart: bool
    var lossEventsInRound: nat
    var startupEcnRounds: nat
    var ecnEligible: bool
    var bwProbeSamples: bool
    var prevProbeTooHigh: bool
    var stoppedRiskyProbe: bool
    var bwProbeUpCnt: u32
    var bwProbeUpAcks: nat
    var bwProbeUpRounds: nat
    var probeRttDoneStamp: nat
    var probeRttRoundDone: bool
    var idleRestart: bool
    var tryFastPath: bool
    var priorCwnd: u32
    var prevCaState: CaState
    ghost var phases: seq<Phase>
    ghost var sampled: bool

    /** `phases` records every phase entered, `sampled` whether a bandwidth sample above 0 was ever taken. */
    ghost predicate Valid()
      reads this
    {
      Tied() && 1 <= bwLo && (sampled <==> 1 <= MaxBw()) && 1 <= bwProbeUpCnt
    }

    /** The phases entered are a walk along the diagram and have led to where the connection is. */
    ghost predicate Tied()
      reads this`mode, this`cycleIdx, this`ackPhase, this`fullBwReached, this`phases
    {
      && (mode == Drain || mode == ProbeBw ==> fullBwReached)
      && (mode == ProbeBw && cycleIdx == Up ==> ackPhase == ProbeStarting || ackPhase == ProbeFeedback)
      && (mode == ProbeBw && cycleIdx == Refill ==> ackPhase == Refilling)
      && phases != [] && Walk(phases) && phases[|phases| - 1] == PhaseOf(mode, cycleIdx)
    }

    /** bbr_max_bw */
    function MaxBw(): u32
      reads this`bwHi0, this`bwHi1
    {
      Max(bwHi0, bwHi1)
    }

    /** bbr_bw */
    function Bw(): (r: u32)
      reads this`bwHi0, this`bwHi1, this`bwLo
      ensures r <= MaxBw() && r <= bwLo && (r == MaxBw() || r == bwLo)
    {
      Min(MaxBw(), bwLo)
    }

    /** A full pipe ends STARTUP. Between acknowledgements this holds; losses and marks may fill the pipe
        in the middle of one. */
    predicate StartupOver()
      reads this`mode, this`fullBwReached
    {
      mode == Startup ==> !fullBwReached
    }

    /** Nothing a step may do takes back. */
    twostate predicate Forward()
      reads this`fullBwReached, this`sampled, this`phases
    {
      && (old(fullBwReached) ==> fullBwReached)
      && (old(sampled) ==> sampled)
      && Prefix(old(phases), phases)
    }

    /** The phase has changed. */
    ghost method Enter()
      requires phases != [] && Walk(phases) && Edge(phases[|phases| - 1], PhaseOf(mode, cycleIdx))
      modifies this`phases
      ensures phases == old(phases) + [PhaseOf(mode, cycleIdx)] && Walk(phases) && Prefix(old(phases), phases)
    {
      phases := phases + [PhaseOf(mode, cycleIdx)];
    }

    /** bbr3_init */
    constructor (cwnd: u32)
      ensures Valid() && mode == Startup && !fullBwReached && !sampled && phases == [InStartup]
    {
      mode, cycleIdx, ackPhase, roundStart := Startup, Up, Init, false;
      fullBwReached, fullBwNow, fullBw, fullBwCnt := false, false, 0, 0;
      bwHi0, bwHi1, bwLo, bwLatest := 0, 0, U32_MAX, 0;
      inflightHi, inflightLo, inflightLatest := U32_MAX, U32_MAX, 0;
      undoBwLo, undoInflightLo, undoInflightHi := 0, 0, 0;
      lossInRound, ecnInRound, lossInCycle, ecnInCycle, lossRoundStart := false, false, false, false, false;
      lossEventsInRound, startupEcnRounds, ecnEligible := 0, 0, false;
      bwProbeSamples, prevProbeTooHigh, stoppedRiskyProbe := false, false, false;
      bwProbeUpCnt, bwProbeUpAcks, bwProbeUpRounds := U32_MAX, 0, 0;
      probeRttDoneStamp, probeRttRoundDone, idleRestart, tryFastPath := 0, false, false, false;
      priorCwnd, prevCaState := cwnd, CaOpen;
      phases, sampled := [InStartup], false;
    }

    // ----- small updates -----

    /** bbr_reset_full_bw: only the detector; what was reached stays reached. */
    method ResetFullBw(bw: u32)
      modifies this`fullBw, this`fullBwCnt, this`fullBwNow
      ensures fullBw == bw && fullBwCnt == 0 && !fullBwNow
    {
      fullBw, fullBwCnt, fullBwNow := bw, 0, false;
    }

    /** bbr_take_max_bw_sample */
    method TakeMaxBwSample(bw: u32)
      requires Valid()
      modifies this`bwHi1, this`sampled
      ensures Valid() && Forward() && MaxBw() == Max(old(MaxBw()), bw) && (sampled <==> old(sampled) || 0 < bw)
    {
      hide Tied, Walk, PhaseOf;
      bwHi1 := Max(bw, bwHi1);
      sampled := sampled || 0 < bw;
    }

    /** bbr_advance_max_bw_filter: a window without samples is remembered. */
    method AdvanceMaxBwFilter()
      requires Valid()
      modifies this`bwHi0, this`bwHi1
      ensures Valid() && MaxBw() == if old(bwHi1) == 0 then old(MaxBw()) else old(bwHi1)
    {
      hide Tied, Walk, PhaseOf;
      if bwHi1 == 0 {
        return;
      }
      bwHi0, bwHi1 := bwHi1, 0;
    }

    /** bbr_reset_lower_bounds */
    method ResetLowerBounds()
      modifies this`bwLo, this`inflightLo
      ensures bwLo == inflightLo == U32_MAX
    {
      bwLo, inflightLo := U32_MAX, U32_MAX;
    }

    /** bbr_reset_congestion_signals */
    method ResetCongestionSignals()
      modifies this`lossInRound, this`ecnInRound, this`lossInCycle, this`ecnInCycle, this`bwLatest, this`inflightLatest
      ensures !lossInRound && !ecnInRound && !lossInCycle && !ecnInCycle && bwLatest == inflightLatest == 0
    {
      lossInRound, ecnInRound, lossInCycle, ecnInCycle, bwLatest, inflightLatest := false, false, false, false, 0, 0;
    }

    /** bbr_save_cwnd: outside recovery and PROBE_RTT the window itself, otherwise the largest one seen. */
    method SaveCwnd(cwnd: u32)
      modifies this`priorCwnd
      ensures priorCwnd == if prevCaState.BelowRecovery() && mode != ProbeRtt then cwnd else Max(old(priorCwnd), cwnd)
      ensures cwnd <= priorCwnd
    {
      priorCwnd := if prevCaState.BelowRecovery() && mode != ProbeRtt then cwnd else Max(priorCwnd, cwnd);
    }

    // ----- the phases of PROBE_BW -----

    /** bbr_set_cycle_idx, together with the phase of acknowledgements that belongs to it. */
    method SetCycleIdx(c: Cycle, ack: AckPhase)
      requires mode == ProbeBw && fullBwReached && phases != [] && Walk(phases)
      requires Edge(phases[|phases| - 1], PhaseOf(ProbeBw, c))
      requires (c == Up ==> ack == ProbeStarting) && (c == Refill ==> ack == Refilling)
      modifies this`cycleIdx, this`ackPhase, this`tryFastPath, this`phases
      ensures Tied() && Prefix(old(phases), phases) && cycleIdx == c && ackPhase == ack && !tryFastPath
    {
      hide Walk, Prefix;
      cycleIdx, ackPhase, tryFastPath := c, ack, false;
      Enter();
    }

    /** bbr_start_bw_probe_refill */
    method StartRefill(rounds: nat)
      requires Valid() && mode == ProbeBw && (cycleIdx == Down || cycleIdx == Cruise)
      modifies this`bwLo, this`inflightLo, this`bwProbeUpRounds, this`bwProbeUpAcks, this`stoppedRiskyProbe,
               this`ackPhase, this`cycleIdx, this`tryFastPath, this`phases
      ensures Valid() && Forward() && cycleIdx == Refill && bwLo == inflightLo == U32_MAX
      ensures bwProbeUpRounds == rounds && bwProbeUpAcks == 0 && !stoppedRiskyProbe
    {
      hide Walk, Prefix;
      ResetLowerBounds();
      bwProbeUpRounds, bwProbeUpAcks, stoppedRiskyProbe := rounds, 0, false;
      SetCycleIdx(Refill, Refilling);
    }

    /** bbr_start_bw_probe_up */
    method StartUp(a: Ack)
      requires Valid() && mode == ProbeBw && cycleIdx == Refill
      modifies this`ackPhase, this`fullBw, this`fullBwCnt, this`fullBwNow, this`cycleIdx, this`tryFastPath,
               this`bwProbeUpRounds, this`bwProbeUpCnt, this`phases
      ensures Valid() && Forward() && cycleIdx == Up && fullBw == a.rs.bw && fullBwCnt == 0 && !fullBwNow
      ensures ackPhase == ProbeStarting && bwProbeUpCnt == Slope(a.path.cwnd, old(bwProbeUpRounds))
    {
      hide Walk, Prefix, Slope;
      ResetFullBw(a.rs.bw);
      SetCycleIdx(Up, ProbeStarting);
      RaiseInflightHiSlope(a.path.cwnd);
    }

    /** bbr_raise_inflight_hi_slope: the volume of probing data doubles each round. */
    method RaiseInflightHiSlope(cwnd: u32)
      modifies this`bwProbeUpRounds, this`bwProbeUpCnt
      ensures bwProbeUpRounds <= 30 && bwProbeUpCnt == Slope(cwnd, old(bwProbeUpRounds))
    {
      bwProbeUpCnt := Slope(cwnd, bwProbeUpRounds);
      bwProbeUpRounds := if bwProbeUpRounds + 1 < 30 then bwProbeUpRounds + 1 else 30;
    }

    /** bbr_start_bw_probe_down: from DRAIN, PROBE_UP, or out of PROBE_RTT. The caller has set the mode. */
    method StartDown(ghost from: Phase)
      requires phases != [] && Walk(phases) && phases[|phases| - 1] == from && Edge(from, InDown) && mode == ProbeBw
               && fullBwReached
      requires 1 <= bwLo && (sampled <==> 1 <= MaxBw())
      modifies this`lossInRound, this`ecnInRound, this`lossInCycle, this`ecnInCycle, this`bwLatest, this`inflightLatest,
               this`bwProbeUpCnt, this`ackPhase, this`cycleIdx, this`tryFastPath, this`phases
      ensures Valid() && Forward() && cycleIdx == Down && ackPhase == ProbeStopping && bwProbeUpCnt == U32_MAX
      ensures !lossInRound && !ecnInRound && !lossInCycle && !ecnInCycle && bwLatest == inflightLatest == 0
    {
      hide Walk, Prefix;
      ResetCongestionSignals();
      bwProbeUpCnt := U32_MAX;
      SetCycleIdx(Down, ProbeStopping);
    }

    /** bbr_start_bw_probe_cruise */
    method StartCruise()
      requires Valid() && mode == ProbeBw && cycleIdx == Down
      modifies this`inflightLo, this`cycleIdx, this`ackPhase, this`tryFastPath, this`phases
      ensures Valid() && Forward() && mode == ProbeBw && cycleIdx == Cruise && ackPhase == old(ackPhase)
      ensures inflightLo == (if old(inflightLo) == U32_MAX then U32_MAX else Min(old(inflightLo), inflightHi))
    {
      hide Walk, Prefix;
      if inflightLo != U32_MAX {
        inflightLo := Min(inflightLo, inflightHi);
      }
      SetCycleIdx(Cruise, ackPhase);
    }

    /** bbr_handle_inflight_too_high: once per probe. */
    method HandleInflightTooHigh(appLimited: bool, txInFlight: u32, target: u32)
      requires Valid()
      modifies this`lossInRound, this`ecnInRound, this`lossInCycle, this`ecnInCycle, this`bwLatest, this`inflightLatest,
               this`bwProbeUpCnt, this`ackPhase, this`cycleIdx, this`tryFastPath, this`phases,
               this`prevProbeTooHigh, this`bwProbeSamples, this`inflightHi
      ensures Valid() && Forward() && prevProbeTooHigh && !bwProbeSamples
      ensures inflightHi == if appLimited then old(inflightHi) else Max(txInFlight, Scaled(target, BBR_UNIT - BETA))
      ensures if mode == ProbeBw && old(cycleIdx) == Up then cycleIdx == Down else cycleIdx == old(cycleIdx)
    {
      hide MaxBw, Walk, Scaled;
      prevProbeTooHigh, bwProbeSamples := true, false;
      if !appLimited {
        inflightHi := Max(txInFlight, Scaled(target, BBR_UNIT - BETA));
      }
      if mode == ProbeBw && cycleIdx == Up {
        StartDown(InUp);
      }
    }

    /** bbr_probe_inflight_hi_upward */
    method ProbeInflightHiUpward(a: Ack)
      requires Valid() && mode == ProbeBw && cycleIdx == Up
      modifies this`bwProbeUpAcks, this`inflightHi, this`tryFastPath, this`bwProbeUpRounds, this`bwProbeUpCnt
      ensures Valid() && (inflightHi != old(inflightHi) ==> a.path.cwndLimited && a.path.cwnd >= old(inflightHi))
      ensures a.path.cwndLimited && a.path.cwnd >= old(inflightHi) ==>
                var acks := old(bwProbeUpAcks) + a.rs.ackedSacked;
                && inflightHi == (old(inflightHi) + acks / old(bwProbeUpCnt)) % (U32_MAX + 1)
                && bwProbeUpAcks == acks % old(bwProbeUpCnt)
                && bwProbeUpCnt == if roundStart then Slope(a.path.cwnd, old(bwProbeUpRounds)) else old(bwProbeUpCnt)
    {
      hide MaxBw, Tied, Walk, PhaseOf, Slope;
      if a.path.cwndLimited && a.path.cwnd >= inflightHi {
        AcksBelow(bwProbeUpAcks + a.rs.ackedSacked, bwProbeUpCnt);
      }
      if !a.path.cwndLimited || a.path.cwnd < inflightHi {
        return;
      }
      bwProbeUpAcks := bwProbeUpAcks + a.rs.ackedSacked;
      if bwProbeUpAcks >= bwProbeUpCnt {
        var delta := bwProbeUpAcks / bwProbeUpCnt;
        bwProbeUpAcks := bwProbeUpAcks % bwProbeUpCnt;
        inflightHi := (inflightHi + delta) % (U32_MAX + 1);
        tryFastPath := false;
      }
      if roundStart {
        RaiseInflightHiSlope(a.path.cwnd);
      }
    }

    /** The samples of the last probe end with this round. */
    predicate ProbingEnds()
      reads this
    {
      ackPhase == ProbeStopping && roundStart
    }

    predicate TooHigh(a: Ack)
      reads this
    {
      InflightTooHigh(a.rs.lost, a.rs.txInFlight, a.rs.delivered, a.rs.deliveredCe, ecnEligible)
    }

    /** Losses or marks were too high for a sample that belongs to a probe. */
    predicate TooHighNow(a: Ack)
      reads this
    {
      TooHigh(a) && bwProbeSamples && !ProbingEnds()
    }

    /** An existing bound follows what was in flight without harm; there is none before the first high loss. */
    function RaisedHi(a: Ack): (r: u32)
      reads this
      ensures inflightHi <= r && (r == inflightHi || r == a.rs.txInFlight)
    {
      if inflightHi != U32_MAX && !TooHigh(a) then Max(inflightHi, a.rs.txInFlight) else inflightHi
    }

    /** bbr_adapt_upper_bounds; tells whether it has decided the transition. */
    method AdaptUpperBounds(a: Ack) returns (decided: bool)
      requires Valid() && fullBwReached
      modifies this
      ensures Valid() && Forward() && mode == old(mode) && roundStart == old(roundStart)
              && fullBwReached == old(fullBwReached)
      ensures decided ==> cycleIdx == Refill && old(cycleIdx) in {Down, Cruise}
      ensures decided <==> old(ProbingEnds()) && mode == ProbeBw && old(stoppedRiskyProbe) && !old(prevProbeTooHigh)
      ensures MaxBw() == if old(ProbingEnds()) && mode == ProbeBw && !a.rs.appLimited
              && old(bwHi1) != 0 then old(bwHi1) else old(MaxBw())
      ensures !decided ==>
              cycleIdx == if old(TooHighNow(a)) && mode == ProbeBw && old(cycleIdx) == Up then Down else old(cycleIdx)
      ensures !decided && old(TooHighNow(a)) && !a.rs.appLimited ==>
                inflightHi == Max(a.rs.txInFlight, Scaled(a.path.target, BBR_UNIT - BETA))
      ensures !decided && !old(TooHighNow(a)) && !(mode == ProbeBw && cycleIdx == Up) ==> inflightHi == old(RaisedHi(a))
    {
      hide Valid, Walk, Scaled, InflightTooHigh, PhaseOf;
      decided := EndOfSamples(a);
      if !decided {
        AdaptInflightHi(a);
      }
    }

    /** The part of bbr_adapt_upper_bounds that follows the acknowledgements of the last probe. */
    method EndOfSamples(a: Ack) returns (decided: bool)
      requires Valid() && fullBwReached
      modifies this`bwLo, this`inflightLo, this`bwProbeUpRounds, this`bwProbeUpAcks, this`stoppedRiskyProbe,
               this`ackPhase,
               this`cycleIdx, this`tryFastPath, this`phases, this`bwProbeSamples, this`bwHi0, this`bwHi1
      ensures Valid() && Forward()
      ensures decided ==> cycleIdx == Refill && old(cycleIdx) in {Down, Cruise}
      ensures decided <==> old(ProbingEnds()) && mode == ProbeBw && old(stoppedRiskyProbe) && !prevProbeTooHigh
      ensures MaxBw() == if old(ProbingEnds()) && mode == ProbeBw && !a.rs.appLimited
              && old(bwHi1) != 0 then old(bwHi1) else old(MaxBw())
      ensures !decided ==> cycleIdx == old(cycleIdx) && (bwProbeSamples <==> old(bwProbeSamples) && !old(ProbingEnds()))
    {
      hide Walk, PhaseOf, Max;
      if ackPhase == ProbeStarting && roundStart {
        ackPhase := ProbeFeedback;
      }
      if ackPhase == ProbeStopping && roundStart {
        bwProbeSamples, ackPhase := false, Init;
        if mode == ProbeBw && !a.rs.appLimited {
          AdvanceMaxBwFilter();
        }
        if mode == ProbeBw && stoppedRiskyProbe && !prevProbeTooHigh {
          StartRefill(0);
          return true;
        }
      }
      decided := false;
    }

    /** The part of bbr_adapt_upper_bounds that moves inflight_hi: down after a probe that was too high, up when
        more was in flight without harm. */
    method AdaptInflightHi(a: Ack)
      requires Valid()
      modifies this`lossInRound, this`ecnInRound, this`lossInCycle, this`ecnInCycle, this`bwLatest, this`inflightLatest,
               this`bwProbeUpCnt, this`ackPhase, this`cycleIdx, this`tryFastPath, this`phases,
               this`prevProbeTooHigh, this`bwProbeSamples, this`inflightHi, this`bwProbeUpAcks, this`bwProbeUpRounds
      ensures Valid() && Forward()
      ensures var cut := TooHigh(a) && old(bwProbeSamples);
              && cycleIdx == (if cut && mode == ProbeBw && old(cycleIdx) == Up then Down else old(cycleIdx))
              && (cut && !a.rs.appLimited ==>
                  inflightHi == Max(a.rs.txInFlight, Scaled(a.path.target, BBR_UNIT - BETA)))
              && (!cut && !(mode == ProbeBw && cycleIdx == Up) ==> inflightHi == old(RaisedHi(a)))
    {
      hide Walk, Scaled, InflightTooHigh, Slope, PhaseOf;
      if InflightTooHigh(a.rs.lost, a.rs.txInFlight, a.rs.delivered, a.rs.deliveredCe, ecnEligible) {
        if bwProbeSamples {
          HandleInflightTooHigh(a.rs.appLimited, a.rs.txInFlight, a.path.target);
        }
      } else if inflightHi != U32_MAX {
        if a.rs.txInFlight > inflightHi {
          inflightHi := a.rs.txInFlight;
        }
        if mode == ProbeBw && cycleIdx == Up {
          ProbeInflightHiUpward(a);
        }
      }
    }

    /** bbr_check_time_to_probe_bw */
    method CheckTimeToProbeBw(a: Ack) returns (decided: bool)
      requires Valid() && mode == ProbeBw && (cycleIdx == Down || cycleIdx == Cruise)
      modifies this`bwLo, this`inflightLo, this`bwProbeUpRounds, this`bwProbeUpAcks, this`stoppedRiskyProbe,
               this`ackPhase, this`cycleIdx, this`tryFastPath, this`phases
      ensures Valid() && Forward() && mode == ProbeBw
      ensures decided <==> a.path.timeToProbe || (ecnEligible && ecnInCycle && !lossInCycle && a.path.caState.CaOpen?)
      ensures if decided then cycleIdx == Refill else cycleIdx == old(cycleIdx)
    {
      hide Walk;
      if ecnEligible && ecnInCycle && !lossInCycle && a.path.caState.CaOpen? {
        StartRefill(a.path.reprobeRounds);
        return true;
      }
      if a.path.timeToProbe {
        StartRefill(0);
        return true;
      }
      decided := false;
    }

    /** bbr_inflight_with_headroom; the comparison is signed, so what exceeds 31 bits counts as small. */
    function InflightWithHeadroom(): (r: u32)
      reads this`inflightHi
      ensures inflightHi == U32_MAX ==> r == U32_MAX
      ensures inflightHi != U32_MAX ==>
                var left := inflightHi - Max(inflightHi * HEADROOM / BBR_UNIT, 1);
                if CWND_MIN_TARGET <= left < 0x8000_0000 then r == left && r < inflightHi else r == CWND_MIN_TARGET
    {
      if inflightHi == U32_MAX then U32_MAX
      else
        var left := inflightHi - Max(Scaled(inflightHi, HEADROOM), 1);
        if left < CWND_MIN_TARGET || left >= 0x8000_0000 then CWND_MIN_TARGET else left
    }

    lemma NotProbing()
      requires Valid() && !fullBwReached
      ensures mode != ProbeBw
    {
      hide Walk, PhaseOf;
    }

    /** bbr_update_cycle_phase: one step of the PROBE_BW state machine. */
    method UpdateCyclePhase(a: Ack)
      requires Valid()
      modifies this
      ensures Valid() && Forward() && mode == old(mode) && roundStart == old(roundStart)
              && fullBwReached == old(fullBwReached)
      ensures mode == ProbeBw && old(cycleIdx) == Refill ==> cycleIdx == if roundStart then Up else Refill
      ensures mode == ProbeBw && old(cycleIdx) == Down && cycleIdx != Refill ==>
                (cycleIdx == Cruise <==> a.path.inNet <= a.path.bdp && a.path.inNet <= InflightWithHeadroom())
      ensures mode == ProbeBw && old(cycleIdx) in {Down, Cruise} && a.path.timeToProbe ==> cycleIdx == Refill
      ensures mode == ProbeBw && old(cycleIdx) == Cruise ==> cycleIdx == Cruise || cycleIdx == Refill
      ensures mode == ProbeBw && old(cycleIdx) == Up && !old(TooHighNow(a)) ==> cycleIdx == Up || cycleIdx == Down
      ensures mode == ProbeBw && old(cycleIdx) == Up && old(TooHighNow(a)) ==> cycleIdx != Up
      ensures old(StartupOver()) ==> StartupOver()
    {
      hide MaxBw, Tied, Walk, Slope;
      if !fullBwReached {
        NotProbing();
        return;
      }
      var decided := AdaptUpperBounds(a);
      if decided || mode != ProbeBw {
        return;
      }
      match cycleIdx
      case Cruise =>
        decided := CheckTimeToProbeBw(a);
      case Refill =>
        if roundStart {
          bwProbeSamples := true;
          StartUp(a);
        }
      case Up =>
        CheckProbeUpDone(a);
      case Down =>
        decided := CheckTimeToProbeBw(a);
        if !decided && a.path.inNet <= InflightWithHeadroom() && a.path.inNet <= a.path.bdp {
          StartCruise();
        }
    }

    /** The PROBE_UP part of bbr_update_cycle_phase. */
    method CheckProbeUpDone(a: Ack)
      requires Valid() && mode == ProbeBw && cycleIdx == Up
      modifies this`lossInRound, this`ecnInRound, this`lossInCycle, this`ecnInCycle, this`bwLatest, this`inflightLatest,
               this`bwProbeUpCnt, this`ackPhase, this`cycleIdx, this`tryFastPath, this`phases,
               this`stoppedRiskyProbe, this`prevProbeTooHigh, this`fullBw, this`fullBwCnt, this`fullBwNow
      ensures Valid() && Forward() && mode == ProbeBw && (cycleIdx == Up || cycleIdx == Down)
      ensures cycleIdx == Down <==> (old(prevProbeTooHigh) && a.path.inNet >= inflightHi) ||
                                    (old(fullBwNow) && !(a.path.cwndLimited && a.path.cwnd >= inflightHi))
      ensures stoppedRiskyProbe <==> old(stoppedRiskyProbe) || (old(prevProbeTooHigh) && a.path.inNet >= inflightHi)
      ensures prevProbeTooHigh <==> old(prevProbeTooHigh) && cycleIdx == Up
    {
      hide MaxBw, Walk;
      var done := false;
      if prevProbeTooHigh && a.path.inNet >= inflightHi {
        stoppedRiskyProbe, done := true, true;
      } else if a.path.cwndLimited && a.path.cwnd >= inflightHi {
        ResetFullBw(a.rs.bw);
      } else if fullBwNow {
        done := true;
      }
      if done {
        prevProbeTooHigh := false;
        StartDown(InUp);
      }
    }

    // ----- modes -----

    /** bbr_handle_queue_too_high_in_startup */
    method HandleQueueTooHighInStartup(bdp: u32)
      requires Valid()
      modifies this`fullBwReached, this`inflightHi
      ensures Valid() && fullBwReached && inflightHi == Max(bdp, inflightLatest)
    {
      hide Walk, PhaseOf;
      fullBwReached, inflightHi := true, Max(bdp, inflightLatest);
    }

    /** bbr_check_ecn_too_high_in_startup */
    method CheckEcnTooHighInStartup(ceRatio: nat, bdp: u32)
      requires Valid()
      modifies this`startupEcnRounds, this`fullBwReached, this`inflightHi
      ensures Valid() && (old(fullBwReached) ==> fullBwReached)
      ensures !old(fullBwReached) ==>
                (fullBwReached <==> ecnEligible && ECN_THRESH <= ceRatio && FULL_ECN_CNT <= old(startupEcnRounds) + 1)
      ensures inflightHi == if fullBwReached && !old(fullBwReached) then Max(bdp, inflightLatest) else old(inflightHi)
      ensures startupEcnRounds == if old(fullBwReached) || !ecnEligible then old(startupEcnRounds)
                                  else if ECN_THRESH <= ceRatio then old(startupEcnRounds) + 1 else 0
    {
      hide Walk, PhaseOf;
      if fullBwReached || !ecnEligible {
        return;
      }
      startupEcnRounds := if ceRatio >= ECN_THRESH then startupEcnRounds + 1 else 0;
      if startupEcnRounds >= FULL_ECN_CNT {
        HandleQueueTooHighInStartup(bdp);
      }
    }

    /** bbr_check_loss_too_high_in_startup */
    method CheckLossTooHighInStartup(a: Ack)
      requires Valid()
      modifies this`lossEventsInRound, this`fullBwReached, this`inflightHi
      ensures Valid() && (old(fullBwReached) ==> fullBwReached)
      ensures !old(fullBwReached) ==>
                (fullBwReached <==> lossRoundStart && a.path.caState.CaRecovery? && TooHigh(a) &&
                                    FULL_LOSS_CNT <= old(lossEventsInRound) + if a.rs.losses != 0 then 1 else 0)
      ensures inflightHi == if fullBwReached && !old(fullBwReached) then Max(a.path.bdp, inflightLatest)
              else old(inflightHi)
      ensures !fullBwReached && lossRoundStart ==> lossEventsInRound == 0
    {
      hide Walk, PhaseOf, InflightTooHigh;
      if fullBwReached {
        return;
      }
      if a.rs.losses != 0 && lossEventsInRound < 15 {
        lossEventsInRound := lossEventsInRound + 1;
      }
      if lossRoundStart && a.path.caState.CaRecovery? && lossEventsInRound >= FULL_LOSS_CNT
         && InflightTooHigh(a.rs.lost, a.rs.txInFlight, a.rs.delivered, a.rs.deliveredCe, ecnEligible) {
        HandleQueueTooHighInStartup(a.path.bdp);
        return;
      }
      if lossRoundStart {
        lossEventsInRound := 0;
      }
    }

    /** bbr_check_full_bw_reached: three rounds without 25 % growth. */
    method CheckFullBwReached(a: Ack)
      requires Valid()
      modifies this`fullBw, this`fullBwCnt, this`fullBwNow, this`fullBwReached
      ensures Valid() && (old(fullBwReached) ==> fullBwReached)
      ensures fullBwReached && !old(fullBwReached) ==>
              FULL_BW_CNT <= fullBwCnt && a.rs.bw < fullBw * FULL_BW_THRESH / BBR_UNIT
      ensures !old(fullBwNow) && !a.rs.appLimited && a.rs.bw >= old(fullBw) * FULL_BW_THRESH / BBR_UNIT ==>
                fullBw == a.rs.bw && fullBwCnt == 0 && !fullBwNow && fullBwReached == old(fullBwReached)
      ensures !old(fullBwNow) && !a.rs.appLimited && a.rs.bw < old(fullBw) * FULL_BW_THRESH / BBR_UNIT ==>
                fullBw == old(fullBw) && fullBwCnt == old(fullBwCnt) + (if roundStart then 1 else 0)
      ensures old(fullBwNow) || a.rs.appLimited ==> fullBwReached == old(fullBwReached) && fullBwCnt == old(fullBwCnt)
    {
      hide Walk, PhaseOf;
      if fullBwNow || a.rs.appLimited {
        return;
      }
      if a.rs.bw >= fullBw * FULL_BW_THRESH / BBR_UNIT {
        ResetFullBw(a.rs.bw);
        return;
      }
      if !roundStart {
        return;
      }
      fullBwCnt := fullBwCnt + 1;
      fullBwNow := fullBwCnt >= FULL_BW_CNT;
      fullBwReached := fullBwReached || fullBwNow;
    }

    /** bbr_check_drain */
    method CheckDrain(a: Ack)
      requires Valid()
      modifies this
      ensures Valid() && Forward()
      ensures fullBwReached == old(fullBwReached)
      ensures var draining := old(mode) == Drain || (old(mode) == Startup && fullBwReached);
              mode == if draining then (if a.path.inNet <= a.path.bdp then ProbeBw else Drain) else old(mode)
      ensures mode == ProbeBw && old(mode) != ProbeBw ==> cycleIdx == Down
    {
      hide Walk;
      if mode == Startup && fullBwReached {
        mode := Drain;
        ResetCongestionSignals();
        Enter();
      }
      if mode == Drain && a.path.inNet <= a.path.bdp {
        mode := ProbeBw;
        StartDown(InDrain);
      }
    }

    /** bbr_exit_probe_rtt */
    method ExitProbeRtt()
      requires Valid() && mode == ProbeRtt
      modifies this
      ensures Valid() && Forward()
      ensures mode == if fullBwReached then ProbeBw else Startup
      ensures fullBwReached ==> cycleIdx == Cruise
      ensures bwLo == inflightLo == U32_MAX && fullBwReached == old(fullBwReached)
      ensures idleRestart == old(idleRestart) && roundStart == old(roundStart)
              && probeRttDoneStamp == old(probeRttDoneStamp)
    {
      hide MaxBw, Walk;
      ResetLowerBounds();
      if fullBwReached {
        mode := ProbeBw;
        StartDown(InProbeRtt);
        StartCruise();
      } else {
        mode := Startup;
        Enter();
      }
    }

    /** bbr_check_probe_rtt_done */
    method CheckProbeRttDone(doneExpired: bool)
      requires Valid() && mode == ProbeRtt
      modifies this
      ensures Valid() && Forward()
      ensures StartupOver()
      ensures mode != ProbeRtt <==> old(probeRttDoneStamp) != 0 && doneExpired
      ensures idleRestart == old(idleRestart) && roundStart == old(roundStart)
              && probeRttDoneStamp == old(probeRttDoneStamp)
    {
      hide Valid, Walk, PhaseOf;
      if probeRttDoneStamp == 0 || !doneExpired {
        return;
      }
      ExitProbeRtt();
    }

    /** bbr_update_min_rtt, as far as the mode is concerned. */
    method UpdateMinRtt(a: Ack)
      requires Valid()
      modifies this
      ensures Valid() && Forward()
      ensures old(StartupOver()) ==> StartupOver()
      ensures old(mode) != ProbeRtt ==>
              mode == if a.rtt.probeRttExpired && !old(idleRestart) then ProbeRtt else old(mode)
      ensures old(mode) == ProbeRtt ==>
                (mode != ProbeRtt <==>
                 old(probeRttDoneStamp) != 0 && (old(probeRttRoundDone) || roundStart) && a.rtt.doneExpired)
      ensures idleRestart <==> old(idleRestart) && a.rs.delivered == 0
    {
      hide Tied, Walk, PhaseOf;
      if a.rtt.probeRttExpired && !idleRestart && mode != ProbeRtt {
        EnterProbeRtt(a.path.cwnd);
      }
      if mode == ProbeRtt {
        InProbeRttMode(a.rtt);
      }
      if a.rs.delivered > 0 {
        idleRestart := false;
      }
    }

    /** The mode is set before the window is saved, so a smaller window does not replace the saved one. */
    method EnterProbeRtt(cwnd: u32)
      requires Valid() && mode != ProbeRtt
      modifies this`mode, this`probeRttDoneStamp, this`ackPhase, this`phases, this`priorCwnd
      ensures Valid() && Forward() && mode == ProbeRtt && probeRttDoneStamp == 0
              && priorCwnd == Max(old(priorCwnd), cwnd)
    {
      hide Walk, Prefix;
      mode := ProbeRtt;
      SaveCwnd(cwnd);
      probeRttDoneStamp, ackPhase := 0, ProbeStopping;
      Enter();
    }

    /** A low flight has to last for its time and for a round trip. */
    method InProbeRttMode(r: Rtt)
      requires Valid() && mode == ProbeRtt
      modifies this
      ensures Valid() && Forward()
      ensures StartupOver()
      ensures mode != ProbeRtt <==>
              old(probeRttDoneStamp) != 0 && (old(probeRttRoundDone) || roundStart) && r.doneExpired
      ensures old(probeRttDoneStamp) == 0 ==> probeRttDoneStamp == if r.lowInflight then r.stamp else 0
      ensures idleRestart == old(idleRestart) && roundStart == old(roundStart)
    {
      hide Tied, Walk, PhaseOf;
      if probeRttDoneStamp == 0 && r.lowInflight {
        probeRttDoneStamp, probeRttRoundDone := r.stamp, false;
      } else if probeRttDoneStamp != 0 {
        if roundStart {
          probeRttRoundDone := true;
        }
        if probeRttRoundDone {
          CheckProbeRttDone(r.doneExpired);
        }
      }
    }

    // ----- congestion signals -----

    /** bbr_is_probing_bandwidth */
    predicate ProbingBandwidth()
      reads this`mode, this`cycleIdx
    {
      mode == Startup || (mode == ProbeBw && (cycleIdx == Refill || cycleIdx == Up))
    }

    /** bbr_adapt_lower_bounds: cut by losses and marks, never to a bandwidth of 0. */
    method AdaptLowerBounds(cwnd: u32, ecnCut: u32)
      requires Valid() && ecnCut <= BBR_UNIT
      modifies this`bwLo, this`inflightLo
      ensures Valid()
      ensures ProbingBandwidth() ==> bwLo == old(bwLo) && inflightLo == old(inflightLo)
      ensures !ProbingBandwidth() && !lossInRound ==> bwLo == old(bwLo)
      ensures !ProbingBandwidth() && lossInRound ==> bwLo == Max(1, LossCut(old(bwLo), MaxBw(), bwLatest))
      ensures !ProbingBandwidth() && lossInRound && !ecnInRound ==>
              inflightLo == LossCut(old(inflightLo), cwnd, inflightLatest)
      ensures !ProbingBandwidth() && ecnInRound ==>
                inflightLo <= Scaled(if old(inflightLo) == U32_MAX then cwnd else old(inflightLo), ecnCut)
      ensures !lossInRound && !ecnInRound ==> inflightLo == old(inflightLo)
    {
      hide Tied, Walk, PhaseOf, Scaled, LossCut;
      if ProbingBandwidth() {
        return;
      }
      var ecnInflightLo: u32 := U32_MAX;
      if ecnInRound {
        inflightLo := if inflightLo == U32_MAX then cwnd else inflightLo;
        ecnInflightLo := Scaled(inflightLo, ecnCut);
      }
      var bw: u32 := bwLo;
      if lossInRound {
        bw, inflightLo := LossCut(bwLo, MaxBw(), bwLatest), LossCut(inflightLo, cwnd, inflightLatest);
      }
      inflightLo := Min(inflightLo, ecnInflightLo);
      bwLo := Max(1, bw);
    }

    /** bbr_update_congestion_signals */
    method UpdateCongestionSignals(a: Ack)
      requires Valid() && a.ecn.cut <= BBR_UNIT
      modifies this`bwHi1, this`sampled, this`lossInRound, this`ecnInRound, this`bwLo, this`inflightLo
      ensures Valid() && (old(sampled) ==> sampled)
      ensures a.rs.valid && 0 < a.rs.bw ==> sampled
      ensures MaxBw() == if a.rs.valid then Max(old(MaxBw()), a.rs.bw) else old(MaxBw())
      ensures a.rs.valid && lossRoundStart ==> !lossInRound && !ecnInRound
      ensures a.rs.valid && !lossRoundStart ==> (lossInRound <==> old(lossInRound) || a.rs.losses > 0)
      ensures !a.rs.valid || !lossRoundStart || ProbingBandwidth() ==>
              bwLo == old(bwLo) && inflightLo == old(inflightLo)
      ensures a.rs.valid && lossRoundStart && !ProbingBandwidth() && (old(lossInRound) || a.rs.losses > 0) ==>
                bwLo == Max(1, LossCut(old(bwLo), MaxBw(), bwLatest))
    {
      hide Tied, Walk, PhaseOf, Scaled, Max, Min, LossCut;
      if !a.rs.valid {
        return;
      }
      TakeSample(a.rs.bw, a.rs.appLimited, a.rs.losses);
      if !lossRoundStart {
        return;
      }
      AdaptLowerBounds(a.path.cwnd, a.ecn.cut);
      lossInRound, ecnInRound := false, false;
    }

    /** The part of bbr_update_congestion_signals that every valid sample takes. */
    method TakeSample(bw: u32, appLimited: bool, losses: nat)
      requires Valid()
      modifies this`bwHi1, this`sampled, this`lossInRound
      ensures Valid() && (old(sampled) ==> sampled) && (0 < bw ==> sampled)
      ensures MaxBw() == Max(old(MaxBw()), bw)
      ensures lossInRound <==> old(lossInRound) || losses > 0
    {
      hide Tied, Walk, PhaseOf;
      if !appLimited || bw >= MaxBw() {
        TakeMaxBwSample(bw);
      }
      lossInRound := lossInRound || losses > 0;
    }

    /** bbr_update_latest_delivery_signals and bbr_advance_latest_delivery_signals */
    method LatestDeliverySignals(a: Ack, advance: bool)
      requires Valid()
      modifies this`lossRoundStart, this`bwLatest, this`inflightLatest
      ensures Valid()
      ensures !advance ==> (lossRoundStart <==> a.rs.valid && a.rs.lossRoundStart)
      ensures !advance ==> bwLatest == (if a.rs.valid then Max(old(bwLatest), a.rs.bw) else old(bwLatest))
      ensures !advance ==>
              inflightLatest == (if a.rs.valid then Max(old(inflightLatest), a.rs.delivered) else old(inflightLatest))
      ensures advance ==> lossRoundStart == old(lossRoundStart)
      ensures advance && lossRoundStart && !a.rs.tlpRetrans ==> bwLatest == a.rs.bw && inflightLatest == a.rs.delivered
      ensures advance && (!lossRoundStart || a.rs.tlpRetrans) ==>
              bwLatest == old(bwLatest) && inflightLatest == old(inflightLatest)
    {
      hide Tied, Walk, PhaseOf;
      if advance {
        if lossRoundStart && !a.rs.tlpRetrans {
          bwLatest, inflightLatest := a.rs.bw, a.rs.delivered;
        }
        return;
      }
      lossRoundStart := false;
      if a.rs.valid {
        bwLatest, inflightLatest := Max(bwLatest, a.rs.bw), Max(inflightLatest, a.rs.delivered);
        lossRoundStart := a.rs.lossRoundStart;
      }
    }

    // ----- the calls of the TCP stack -----

    /** bbr_update_model */
    method UpdateModel(a: Ack)
      requires Valid() && a.ecn.cut <= BBR_UNIT
      modifies this
      ensures Valid() && Forward()
      ensures a.rs.valid && 0 < a.rs.bw ==> sampled
      ensures StartupOver()
    {
      hide Valid, Walk, PhaseOf, Scaled;
      UpdateCongestionSignals(a);
      CheckLossTooHighInStartup(a);
      CheckFullBwReached(a);
      CheckDrain(a);
      UpdateCyclePhase(a);
      UpdateMinRtt(a);
    }

    /** bbr_update_ecn_alpha at the start of a round, as far as it decides about the pipe. */
    method BeginRound(a: Ack)
      requires Valid()
      modifies this`roundStart, this`ecnEligible, this`startupEcnRounds, this`fullBwReached, this`inflightHi
      ensures Valid() && (old(fullBwReached) ==> fullBwReached) && roundStart == a.rs.roundStart
      ensures ecnEligible <==> old(ecnEligible) || (roundStart && a.ecn.allowed)
    {
      hide Tied;
      roundStart := a.rs.roundStart;
      if roundStart {
        ecnEligible := ecnEligible || a.ecn.allowed;
        if a.ecn.ceRatio.Some? {
          CheckEcnTooHighInStartup(a.ecn.ceRatio.value, a.path.bdp);
        }
      }
    }

    /** What bbr3_main does before the choice of the path: round start, ECN, delivery signals. */
    method BeginAck(a: Ack)
      requires Valid()
      modifies this`roundStart, this`ecnEligible, this`startupEcnRounds, this`fullBwReached, this`inflightHi,
               this`ecnInRound, this`lossRoundStart, this`bwLatest, this`inflightLatest
      ensures Valid() && (old(fullBwReached) ==> fullBwReached) && roundStart == a.rs.roundStart
      ensures ecnEligible <==> old(ecnEligible) || (roundStart && a.ecn.allowed)
      ensures ecnInRound <==> old(ecnInRound) || (ecnEligible && a.ecn.ece)
      ensures lossRoundStart <==> a.rs.valid && a.rs.lossRoundStart
    {
      hide Tied, Max;
      BeginRound(a);
      ecnInRound := ecnInRound || (ecnEligible && a.ecn.ece);
      LatestDeliverySignals(a, false);
    }

    /** What bbr_set_cwnd decides about the next fast path. */
    method SetCwnd(a: Ack)
      requires Valid()
      modifies this`tryFastPath
      ensures Valid() && tryFastPath == if a.rs.ackedSacked != 0 then a.path.targetReached else old(tryFastPath)
    {
      hide Tied, Walk, PhaseOf;
      if a.rs.ackedSacked != 0 {
        tryFastPath := a.path.targetReached;
      }
    }

    /** bbr_run_fast_path or bbr_update_model, and the control that follows unless nothing has changed. */
    method FastOrFull(a: Ack)
      requires Valid() && a.ecn.cut <= BBR_UNIT
      modifies this
      ensures Valid() && Forward()
      ensures a.rs.valid && 0 < a.rs.bw ==> sampled
      ensures StartupOver()
    {
      hide Tied, Walk, PhaseOf;
      if tryFastPath && a.rs.appLimited && a.rs.bw < MaxBw() && !lossInRound && !ecnInRound {
        var prevMode := mode;
        CheckDrain(a);
        UpdateCyclePhase(a);
        UpdateMinRtt(a);
        if mode == prevMode && a.rtt.minRttSame && tryFastPath {
          return;
        }
      } else {
        UpdateModel(a);
      }
      SetCwnd(a);
    }

    /** bbr3_main, for one acknowledgement. */
    method Acknowledge(a: Ack)
      requires Valid() && a.ecn.cut <= BBR_UNIT
      modifies this
      ensures Valid() && Forward()
      ensures sampled ==> 1 <= Bw()
      ensures a.rs.valid && 0 < a.rs.bw ==> sampled
      ensures StartupOver()
    {
      hide Walk, PhaseOf, Connection.Valid;
      BeginAck(a);
      FastOrFull(a);
      EndAck(a);
      if sampled { BwPositive(); }
    }

    /** What bbr3_main does after the control: the filter of the latest round, and the signals of the cycle. */
    method EndAck(a: Ack)
      requires Valid()
      modifies this`lossRoundStart, this`bwLatest, this`inflightLatest, this`lossInCycle, this`ecnInCycle,
               this`prevCaState
      ensures Valid() && prevCaState == a.path.caState
      ensures (lossInCycle <==> old(lossInCycle) || a.rs.lost > 0)
              && (ecnInCycle <==> old(ecnInCycle) || a.rs.deliveredCe > 0)
    {
      hide Tied, Walk, PhaseOf;
      LatestDeliverySignals(a, true);
      prevCaState := a.path.caState;
      lossInCycle, ecnInCycle := lossInCycle || a.rs.lost > 0, ecnInCycle || a.rs.deliveredCe > 0;
    }

    lemma BwPositive()
      requires Valid() && sampled
      ensures 1 <= Bw()
    {
    }

    /** bbr_note_loss */
    method NoteLoss()
      requires Valid()
      modifies this`lossInRound, this`lossInCycle
      ensures Valid() && lossInRound && lossInCycle
    {
      hide Tied, Walk, PhaseOf;
      lossInRound, lossInCycle := true, true;
    }

    /** bbr3_skb_marked_lost: `sent` tells that the skb has a delivery time stamp. */
    method SkbMarkedLost(txInFlight: u32, lost: int, appLimited: bool, pcount: nat, sent: bool, target: u32)
      requires Valid()
      modifies this
      ensures Valid() && Forward()
      ensures pcount <= txInFlight && pcount <= lost && target <= txInFlight < U32_MAX ==>
                inflightHi == old(inflightHi) || inflightHi <= txInFlight + 1
      ensures var high := old(bwProbeSamples) && sent && InflightTooHigh(lost, txInFlight, 0, 0, ecnEligible);
              && (high ==> prevProbeTooHigh && !bwProbeSamples)
              && (high && mode == ProbeBw && old(cycleIdx) == Up ==> cycleIdx == Down)
              && (!high ==> lossInRound && lossInCycle && inflightHi == old(inflightHi) && cycleIdx == old(cycleIdx))
              && (high && !appLimited && pcount <= txInFlight && pcount <= lost && txInFlight < U32_MAX ==>
                    inflightHi >= InflightHiFromLostSkb(txInFlight, lost, pcount))
      ensures mode == old(mode) && fullBwReached == old(fullBwReached)
      ensures old(StartupOver()) ==> StartupOver()
    {
      hide Valid, Walk, PhaseOf, Scaled, InflightHiFromLostSkb;
      NoteLoss();
      if !bwProbeSamples || !sent {
        return;
      }
      if InflightTooHigh(lost, txInFlight, 0, 0, ecnEligible) {
        var hi := InflightHiFromLostSkb(txInFlight, lost, pcount);
        if pcount <= txInFlight && pcount <= lost { LostSkbBound(txInFlight, lost, pcount); }
        FitsU32(txInFlight, lost, pcount);
        HandleInflightTooHigh(appLimited, hi % (U32_MAX + 1), target);
      }
    }

    /** bbr_run_loss_probe_recovery */
    method RunLossProbeRecovery(appLimited: bool, target: u32)
      requires Valid()
      modifies this
      ensures Valid() && Forward()
      ensures var out: u32 := (old(inflightLatest) + 1) % (U32_MAX + 1);
              var high := old(bwProbeSamples) && InflightTooHigh(1, out, 0, 0, ecnEligible);
              && (high ==> prevProbeTooHigh && !bwProbeSamples)
              && (high && mode == ProbeBw && old(cycleIdx) == Up ==> cycleIdx == Down)
              && (high && !appLimited ==> inflightHi == Max(out, Scaled(target, BBR_UNIT - BETA)))
              && (!high ==> lossInRound && lossInCycle && inflightHi == old(inflightHi) && cycleIdx == old(cycleIdx))
      ensures mode == old(mode) && fullBwReached == old(fullBwReached)
      ensures old(StartupOver()) ==> StartupOver()
    {
      hide Valid, Walk, PhaseOf, Scaled, InflightTooHigh;
      NoteLoss();
      if !bwProbeSamples {
        return;
      }
      var txInFlight: u32 := (inflightLatest + 1) % (U32_MAX + 1);
      if InflightTooHigh(1, txInFlight, 0, 0, ecnEligible) {
        HandleInflightTooHigh(appLimited, txInFlight, target);
      }
    }

    /** bbr3_ssthresh: entering recovery saves what an undo restores. */
    method Ssthresh(cwnd: u32)
      requires Valid()
      modifies this`undoBwLo, this`undoInflightLo, this`undoInflightHi, this`priorCwnd
      ensures Valid() && undoBwLo == bwLo && undoInflightLo == inflightLo && undoInflightHi == inflightHi
      ensures cwnd <= priorCwnd && (prevCaState.BelowRecovery() && mode != ProbeRtt ==> priorCwnd == cwnd)
    {
      hide Tied;
      SaveCwnd(cwnd);
      undoBwLo, undoInflightLo, undoInflightHi := bwLo, inflightLo, inflightHi;
    }

    /** bbr3_undo_cwnd: no bound is left below what was saved, and the window is the saved one. */
    method UndoCwnd() returns (cwnd: u32)
      requires Valid()
      modifies this`fullBw, this`fullBwCnt, this`fullBwNow, this`lossInRound, this`bwLo, this`inflightLo,
               this`inflightHi, this`tryFastPath
      ensures Valid() && fullBwReached == old(fullBwReached) && cwnd == priorCwnd
      ensures bwLo == Max(old(bwLo), undoBwLo) && inflightLo == Max(old(inflightLo), undoInflightLo)
      ensures inflightHi == Max(old(inflightHi), undoInflightHi) && !lossInRound && !fullBwNow
              && fullBw == fullBwCnt == 0
    {
      hide MaxBw, Tied;
      ResetFullBw(0);
      lossInRound := false;
      bwLo, inflightLo, inflightHi :=
          Max(bwLo, undoBwLo), Max(inflightLo, undoInflightLo), Max(inflightHi, undoInflightHi);
      tryFastPath := false;
      cwnd := priorCwnd;
    }

    /** bbr3_cwnd_event, CA_EVENT_TX_START after idling. */
    method TxStart(appLimited: bool, doneExpired: bool)
      requires Valid()
      modifies this
      ensures Valid() && Forward()
      ensures old(StartupOver()) ==> StartupOver()
      ensures idleRestart <==> old(idleRestart) || appLimited
      ensures if old(mode) == ProbeRtt && appLimited && old(probeRttDoneStamp) != 0 && doneExpired
              then mode != ProbeRtt else mode == old(mode)
    {
      hide Tied, Walk, PhaseOf;
      if !appLimited {
        return;
      }
      idleRestart := true;
      if mode == ProbeRtt {
        CheckProbeRttDone(doneExpired);
      }
    }

    /** bbr3_set_state: the window after it. Entering TCP_CA_Loss makes the window from before the timeout the
        short-term bound, leaving it restores that window. */
    method SetState(newState: CaState, cwnd0: u32) returns (cwnd: u32)
      requires Valid()
      modifies this`fullBw, this`fullBwCnt, this`fullBwNow, this`inflightLo, this`prevCaState, this`tryFastPath
      ensures Valid() && fullBwReached == old(fullBwReached)
      ensures newState.CaLoss? ==> prevCaState == CaLoss && !fullBwNow && fullBw == fullBwCnt == 0 && cwnd == cwnd0
      ensures newState.CaLoss? ==>
                inflightLo == if !ProbingBandwidth() && old(inflightLo) == U32_MAX then Max(cwnd0, priorCwnd)
                    else old(inflightLo)
      ensures !newState.CaLoss? ==> inflightLo == old(inflightLo) && prevCaState == old(prevCaState)
      ensures !newState.CaLoss? ==> cwnd == if prevCaState.CaLoss? then Max(cwnd0, priorCwnd) else cwnd0
      ensures !newState.CaLoss? && prevCaState.CaLoss? ==> !tryFastPath
    {
      hide Tied;
      cwnd := cwnd0;
      if newState.CaLoss? {
        prevCaState := CaLoss;
        ResetFullBw(0);
        if !ProbingBandwidth() && inflightLo == U32_MAX {
          inflightLo := Max(cwnd0, priorCwnd);
        }
      } else if prevCaState.CaLoss? {
        cwnd, tryFastPath := Max(cwnd0, priorCwnd), false;
      }
    }
  }

  lemma FitsU32(txInFlight: u32, lost: int, pcount: nat)
    ensures pcount <= txInFlight && pcount <= lost && InflightHiFromLostSkb(txInFlight, lost, pcount) <= txInFlight + 1
            && txInFlight < U32_MAX ==>
              InflightHiFromLostSkb(txInFlight, lost, pcount) % (U32_MAX + 1)
                  == InflightHiFromLostSkb(txInFlight, lost, pcount)
  {
  }

  // ----- whole runs -----

  /** The calls the TCP stack makes, with their arguments. */
  datatype Call =
    | OnAck(ack: Ack)
    | OnLost(txInFlight: u32, lost: int, appLimited: bool, pcount: nat, sent: bool, target: u32)
    | OnProbeRecovery(appLimited: bool, target: u32)
    | OnRecovery(cwnd: u32)
    | OnUndo
    | OnTxStart(appLimited: bool, doneExpired: bool)
    | OnState(newState: CaState, cwnd: u32)

  predicate CallOk(c: Call) {
    c.OnAck? ==> c.ack.ecn.cut <= BBR_UNIT
  }

  method Step(b: Connection, c: Call)
    requires b.Valid() && CallOk(c)
    modifies b
    ensures b.Valid() && b.Forward()
    ensures c.OnAck? && c.ack.rs.valid && 0 < c.ack.rs.bw ==> b.sampled
    ensures old(b.StartupOver()) ==> b.StartupOver()
  {
    hide Walk, PhaseOf, InflightHiFromLostSkb;
    match c
    case OnAck(ack) => b.Acknowledge(ack);
    case OnLost(txInFlight, lost, appLimited, pcount, sent, target) => b.SkbMarkedLost(txInFlight, lost, appLimited,
        pcount, sent, target);
    case OnProbeRecovery(appLimited, target) => b.RunLossProbeRecovery(appLimited, target);
    case OnRecovery(cwnd) => b.Ssthresh(cwnd);
    case OnUndo => var _ := b.UndoCwnd();
    case OnTxStart(appLimited, doneExpired) => b.TxStart(appLimited, doneExpired);
    case OnState(newState, cwnd) => var _ := b.SetState(newState, cwnd);
  }

  /** A valid sample above 0. When the filter does not take it, being limited by the application, it holds a
      larger one already. */
  predicate TakesSample(c: Call) {
    c.OnAck? && c.ack.rs.valid && 0 < c.ack.rs.bw
  }

  /** Over any run from the start of a connection: the phases walk along the diagram, DRAIN and PROBE_BW
      mean that the full bandwidth was reached, and once a bandwidth sample was taken the estimate
      never falls back to 0. */
  method Run(cwnd: u32, calls: seq<Call>) returns (b: Connection)
    requires forall c :: c in calls ==> CallOk(c)
    ensures fresh(b) && b.phases != [] && b.phases[0] == InStartup
            && b.phases[|b.phases| - 1] == PhaseOf(b.mode, b.cycleIdx)
    ensures forall i :: 1 <= i < |b.phases| ==>
              && (b.phases[i] == InUp ==> b.phases[i - 1] == InRefill)
              && (b.phases[i] == InDrain ==> b.phases[i - 1] == InStartup)
              && (b.phases[i] == InStartup ==> b.phases[i - 1] == InProbeRtt)
              && (b.phases[i] in {InCruise, InRefill, InUp} ==> b.phases[i - 1] in {InDown, InCruise, InRefill})
              && (b.phases[i] == InDown ==> b.phases[i - 1] in {InDrain, InUp, InProbeRtt})
    ensures Walk(b.phases)
    ensures b.mode == Drain || b.mode == ProbeBw ==> b.fullBwReached
    ensures (exists c :: c in calls && TakesSample(c)) ==> 1 <= b.Bw()
    ensures b.StartupOver()
  {
    b := new Connection(cwnd);
    for k := 0 to |calls|
      invariant fresh(b) && b.Valid() && b.StartupOver()
      invariant (exists c :: c in calls[..k] && TakesSample(c)) ==> b.sampled
    {
      hide Walk, PhaseOf, TakesSample, Connection.Valid;
      assert calls[..k + 1] == calls[..k] + [calls[k]];
      Step(b, calls[k]);
      SampleTaken(calls[k]);
    }
    assert calls[..|calls|] == calls;
    assert forall i :: 1 <= i < |b.phases| ==> Edge(b.phases[i - 1], b.phases[i]);
  }

  lemma SampleTaken(c: Call)
    ensures TakesSample(c) ==> c.OnAck? && c.ack.rs.valid && 0 < c.ack.rs.bw
  {
  }

  // ----- what a walk along the diagram means -----

  ghost predicate CruiseOrRefill(p: seq<Phase>, j: int, i: int) {
    0 <= j <= i <= |p| && forall k :: j < k < i ==> p[k] in {InCruise, InRefill}
  }

  /** Before any PROBE_UP the pipe was refilled, and before that the flow went down, without a PROBE_RTT or
      another PROBE_UP in between. */
  lemma {:induction false} DownBeforeUp(p: seq<Phase>, i: nat) returns (j: nat)
    requires Walk(p) && i < |p| && p[i] in {InCruise, InRefill, InUp}
    ensures j < i && p[j] == InDown && CruiseOrRefill(p, j, i)
  {
    assert Edge(p[i - 1], p[i]);
    j := i - 1;
    if p[j] != InDown {
      j := DownBeforeUp(p, i - 1);
    }
  }
}
