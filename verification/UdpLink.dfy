/** Packets, link constants and the congestion / timeout control of one link (cpp/Udp.cpp, include/cavan++/Udp.h). */
module UdpLinkControl {
  import opened Bytes

  const WIN_SIZE := 64
  const CWND_MAX := 8
  const RTO_DEF := 500
  const RTO_MIN := 10
  const RTO_MAX := 5000
  const SEQ_MOD := 65536
  const U32_MOD := 0x1_0000_0000

  /** A queued or stored packet; time and times are the instant and the count of its transmissions. */
  datatype Pack = Pack(sequence: u16, data: seq<u8>, time: nat, times: u16)

  function Stamp(p: Pack, time: nat): Pack {
    p.(time := time, times := (p.times + 1) % 65536)
  }

  datatype Control = Control(rto: u16, rtts: u16, rttd: u16, acks: u16, cwnd: u16)

  const INITIAL := Control(RTO_DEF, RTO_DEF, 0, 0, 1)

  function Rang(a: nat, b: nat): nat { if a > b then a - b else b - a }

  /** A packet's timer expired: back to one packet, timeout doubled in 16 bits and then capped. */
  function OnLose(c: Control): Control {
    var doubled := (2 * c.rto) % 65536;
    c.(cwnd := 1, acks := 0, rto := if doubled > RTO_MAX then RTO_MAX else doubled)
  }

  /** The timeout estimator alone, on a sample that already fits 32 bits; all arithmetic wraps as in the source. */
  function Estimate(c: Control, rtt: nat): Control {
    var rttd := (3 * c.rttd + Rang(c.rtts, rtt)) % U32_MOD;
    var rtts := ((7 * c.rtts + rtt) % U32_MOD) / 8 % 65536;
    var rto := ((rtts + rttd) * 2) % U32_MOD % 65536;
    c.(rtts := rtts, rttd := (rttd / 4) % 65536, rto := if rto < RTO_MIN then RTO_MIN else rto)
  }

  /** Additive growth of the congestion window: one step for every cwnd + 1 first-transmission acknowledgements. */
  function Grow(c: Control): Control {
    if c.acks < c.cwnd then c.(acks := c.acks + 1)
    else c.(acks := 0, cwnd := if c.cwnd < CWND_MAX then c.cwnd + 1 else c.cwnd)
  }

  function Sample(p: Pack, time: nat): nat { (time - p.time) % U32_MOD }

  /** An acknowledgement arrived for a held packet; only a packet sent once gives a sample (Karn's rule). */
  function OnSended(c: Control, p: Pack, time: nat): Control {
    if p.times == 1 then Grow(Estimate(c, Sample(p, time))) else c
  }

  class UdpLink {
    var mRto: u16
    var mRtts: u16
    var mRttd: u16
    var mAcks: u16
    var mCwnd: u16

    ghost function View(): Control
      reads this
    {
      Control(mRto, mRtts, mRttd, mAcks, mCwnd)
    }

    constructor ()
      ensures View() == INITIAL
    {
      mAcks := 0;
      mCwnd := 1;
      mRttd := 0;
      mRtts := RTO_DEF;
      mRto := RTO_DEF;
    }

    method OnUdpPackLose()
      modifies this
      ensures View() == OnLose(old(View()))
    {
      mCwnd := 1;
      mAcks := 0;
      mRto := (mRto * 2) % 65536;
      if mRto > RTO_MAX {
        mRto := RTO_MAX;
      }
    }

    method OnUdpPackSended(pack: Pack, time: nat)
      modifies this
      ensures View() == OnSended(old(View()), pack, time)
    {
      if pack.times == 1 {
        var rtt := (time - pack.time) % U32_MOD;
        var rttd := (mRttd * 3 + Rang(mRtts, rtt)) % U32_MOD;
        mRtts := ((mRtts * 7 + rtt) % U32_MOD) / 8 % 65536;
        mRttd := (rttd / 4) % 65536;
        mRto := ((mRtts + rttd) * 2) % U32_MOD % 65536;
        if mRto < RTO_MIN {
          mRto := RTO_MIN;
        }
        if mAcks < mCwnd {
          mAcks := mAcks + 1;
        } else {
          mAcks := 0;
          if mCwnd < CWND_MAX {
            mCwnd := mCwnd + 1;
          }
        }
      }
    }
  }

  // ---- whole histories of acknowledgements and losses ----

  datatype Event = Acked(pack: Pack, time: nat) | Lost

  function Handle(c: Control, e: Event): Control {
    match e
    case Acked(p, t) => OnSended(c, p, t)
    case Lost => OnLose(c)
  }

  function After(c: Control, events: seq<Event>): Control {
    if events == [] then c else Handle(After(c, events[..|events| - 1]), events[|events| - 1])
  }

  /** The samples an event list feeds to the estimator are all at most m. */
  predicate SamplesUpTo(events: seq<Event>, m: nat) {
    forall e <- events :: e.Acked? && e.pack.times == 1 ==> Sample(e.pack, e.time) <= m
  }

  /** The samples an event list feeds to the estimator are all at least m. */
  predicate SamplesFrom(events: seq<Event>, m: nat) {
    forall e <- events :: e.Acked? && e.pack.times == 1 ==> Sample(e.pack, e.time) >= m
  }

  /** The congestion window stays within [1, CWND_MAX] over every history, whatever the samples are. */
  lemma {:induction false} CwndBounded(events: seq<Event>)
    ensures var c := After(INITIAL, events); 1 <= c.cwnd <= CWND_MAX && c.acks <= c.cwnd
  {
    if events != [] {
      CwndBounded(events[..|events| - 1]);
    }
  }

  /** Wrapping can only lower a value: whatever the samples are, the smoothed values stay at or below the greatest of
      them and the start, and the timeout at or below ten times that or RTO_MAX. */
  lemma {:induction false} EstimatorCeiling(events: seq<Event>, hi: nat)
    requires RTO_DEF <= hi && SamplesUpTo(events, hi)
    ensures var c := After(INITIAL, events);
            c.rtts <= hi && c.rttd <= hi && c.rto <= if RTO_MAX > 10 * hi then RTO_MAX else 10 * hi
  {
    if events != [] {
      EstimatorCeiling(events[..|events| - 1], hi);
      var c, e := After(INITIAL, events[..|events| - 1]), events[|events| - 1];
      assert e in events;
      if e.Acked? && e.pack.times == 1 {
        EstimateCeiling(c, Sample(e.pack, e.time), hi);
        hide Estimate;
      }
    }
  }

  lemma EstimateCeiling(c: Control, rtt: nat, hi: nat)
    requires rtt <= hi && c.rtts <= hi && c.rttd <= hi
    ensures var d := Estimate(c, rtt);
            d.rtts <= hi && d.rttd <= hi && (d.rto <= 10 * hi || d.rto == RTO_MIN)
  {
    var raw, num := 3 * c.rttd + Rang(c.rtts, rtt), 7 * c.rtts + rtt;
    assert raw <= 4 * hi && num <= 8 * hi;
    ModLower(raw, U32_MOD);
    ModLower(num, U32_MOD);
    var rttd, smooth := raw % U32_MOD, num % U32_MOD / 8;
    assert smooth <= hi && rttd / 4 <= hi;
    ModLower(smooth, 65536);
    ModLower(rttd / 4, 65536);
    var rto := (smooth % 65536 + rttd) * 2;
    ModLower(rto, U32_MOD);
    ModLower(rto % U32_MOD, 65536);
  }

  lemma ModLower(a: nat, m: nat)
    requires m > 0
    ensures a % m <= a
  {
  }

  /** The largest sample with which no smoothed round trip can leave its 16 bits. */
  const SAMPLE_MAX := 65542

  /** With every sample in [lo, hi] the smoothed round trip stays in [lo, hi] too, up to SAMPLE_MAX. */
  lemma {:induction false} EstimatorBounded(events: seq<Event>, lo: nat, hi: nat)
    requires lo <= RTO_DEF <= hi <= SAMPLE_MAX
    requires SamplesFrom(events, lo) && SamplesUpTo(events, hi)
    ensures var c := After(INITIAL, events);
            && lo <= c.rtts <= hi && c.rttd <= hi
            && c.rto <= if RTO_MAX > 10 * hi then RTO_MAX else 10 * hi
  {
    EstimatorCeiling(events, hi);
    if events != [] {
      EstimatorBounded(events[..|events| - 1], lo, hi);
      var c, e := After(INITIAL, events[..|events| - 1]), events[|events| - 1];
      assert e in events;
      if e.Acked? && e.pack.times == 1 {
        SmoothedExactly(c, Sample(e.pack, e.time));
        hide Estimate;
      }
    }
  }

  lemma SmoothedExactly(c: Control, rtt: nat)
    requires rtt <= SAMPLE_MAX
    ensures Estimate(c, rtt).rtts == (7 * c.rtts + rtt) / 8
  {
    var num := 7 * c.rtts + rtt;
    assert num < 8 * 65536;
    Small(num, U32_MOD);
    Small(num / 8, 65536);
  }

  /** And SAMPLE_MAX is the exact limit: with one millisecond more some history takes the smoothed round trip to 0. */
  lemma EstimatorKeepsLeastIff(lo: nat, hi: nat)
    requires 0 < lo <= RTO_DEF <= hi
    ensures (forall events: seq<Event> :: SamplesFrom(events, lo) && SamplesUpTo(events, hi) ==>
               After(INITIAL, events).rtts >= lo)
            <==> hi <= SAMPLE_MAX
  {
    if hi <= SAMPLE_MAX {
      forall events: seq<Event> | SamplesFrom(events, lo) && SamplesUpTo(events, hi)
        ensures After(INITIAL, events).rtts >= lo
      {
        EstimatorBounded(events, lo, hi);
      }
    } else {
      var events := ClimbToWrap([]);
      assert SamplesFrom(events, lo) && SamplesUpTo(events, hi);
    }
  }

  const TOO_SLOW := Acked(Pack(0, [], 0, 1), SAMPLE_MAX + 1)

  /** Samples of SAMPLE_MAX + 1 ms raise the smoothed value to the last 16-bit one, and the next wraps it. */
  lemma {:induction false} ClimbToWrap(sofar: seq<Event>) returns (events: seq<Event>)
    requires forall e <- sofar :: e == TOO_SLOW
    ensures (forall e <- events :: e == TOO_SLOW) && After(INITIAL, events).rtts == 0
    decreases 65535 - After(INITIAL, sofar).rtts
  {
    var c := After(INITIAL, sofar);
    var more := sofar + [TOO_SLOW];
    assert more[..|sofar|] == sofar;
    assert After(INITIAL, more) == OnSended(c, TOO_SLOW.pack, TOO_SLOW.time);
    SlowStep(c);
    hide Estimate;
    if c.rtts == 65535 {
      events := more;
    } else {
      events := ClimbToWrap(more);
    }
  }

  lemma SlowStep(c: Control)
    ensures Sample(TOO_SLOW.pack, TOO_SLOW.time) == SAMPLE_MAX + 1
    ensures var d := Estimate(c, SAMPLE_MAX + 1);
            if c.rtts == 65535 then d.rtts == 0 else d.rtts > c.rtts
  {
    Small(SAMPLE_MAX + 1, U32_MOD);
    var num := 7 * c.rtts + SAMPLE_MAX + 1;
    Small(num, U32_MOD);
    if c.rtts < 65535 {
      Small(num / 8, 65536);
    }
  }

  /** One estimate comes out unwrapped exactly when the round trip and the raw deviation stay below half the field. */
  lemma EstimateFitsIff(c: Control, rtt: nat)
    requires rtt < U32_MOD
    ensures var raw, smooth := 3 * c.rttd + Rang(c.rtts, rtt), (7 * c.rtts + rtt) / 8;
            var e, rto := Estimate(c, rtt), 2 * (smooth + raw);
            e.rtts == smooth && e.rttd == raw / 4 && e.rto == (if rto < RTO_MIN then RTO_MIN else rto)
            <==> smooth + raw < 32768
  {
    var raw, smooth := 3 * c.rttd + Rang(c.rtts, rtt), (7 * c.rtts + rtt) / 8;
    if smooth + raw < 32768 {
      Small(raw, U32_MOD);
      Small(7 * c.rtts + rtt, U32_MOD);
      Small(smooth, 65536);
      Small(raw / 4, 65536);
      Small((smooth + raw) * 2, U32_MOD);
      Small((smooth + raw) * 2, 65536);
    } else {
      hide Estimate;
      assert Estimate(c, rtt).rto < 65536 <= 2 * (smooth + raw);
    }
  }

  lemma Small(a: nat, m: nat)
    requires a < m
    ensures a % m == a
  {
  }

  /** The floor on the timeout is not kept by doubling: starting at or above RTO_MIN, a loss leaves the timeout at or
      above RTO_MIN exactly when the 16-bit shift does not carry a timeout just over 2^15 back to almost zero. */
  lemma LoseKeepsFloorIff(c: Control)
    requires c.rto >= RTO_MIN
    ensures OnLose(c).rto >= RTO_MIN <==> !(32768 <= c.rto < 32773)
  {
    if c.rto >= 32768 {
      assert (2 * c.rto) % 65536 == 2 * c.rto - 65536;
    } else {
      assert (2 * c.rto) % 65536 == 2 * c.rto;
    }
  }

  /** The timeout never falls below RTO_MIN in the course of a history. */
  ghost predicate KeepsFloor(events: seq<Event>) {
    forall k: nat :: k <= |events| ==> After(INITIAL, events[..k]).rto >= RTO_MIN
  }

  /** No loss finds the timeout where doubling it wraps to almost nothing. */
  ghost predicate NoLossAtWrap(events: seq<Event>) {
    forall k: nat :: k < |events| && events[k].Lost? ==> !(32768 <= After(INITIAL, events[..k]).rto < 32773)
  }

  lemma KeepsFloorSnoc(init: seq<Event>, e: Event)
    ensures KeepsFloor(init + [e]) <==> KeepsFloor(init) && After(INITIAL, init + [e]).rto >= RTO_MIN
    ensures KeepsFloor(init) ==> After(INITIAL, init).rto >= RTO_MIN
  {
    hide After;
    var events := init + [e];
    assert events[..|events|] == events && init[..|init|] == init;
    assert forall k: nat :: k <= |init| ==> init[..k] == events[..k];
  }

  lemma NoLossSnoc(init: seq<Event>, e: Event)
    ensures NoLossAtWrap(init + [e]) <==>
            NoLossAtWrap(init) && !(e.Lost? && 32768 <= After(INITIAL, init).rto < 32773)
  {
    hide After;
    var events := init + [e];
    assert forall k: nat :: k <= |init| ==> init[..k] == events[..k];
    assert events[..|init|] == init && events[|init|] == e;
    assert forall k: nat :: k < |init| ==> init[k] == events[k];
  }

  /** Over whole histories: the floor is kept throughout if and only if no loss comes at such a timeout. */
  lemma {:induction false} FloorKeptIff(events: seq<Event>)
    ensures KeepsFloor(events) <==> NoLossAtWrap(events)
  {
    if events == [] {
      assert events[..0] == [];
    } else {
      var init, e := events[..|events| - 1], events[|events| - 1];
      var c := After(INITIAL, init);
      assert events == init + [e];
      assert After(INITIAL, events) == Handle(c, e);
      hide After, KeepsFloor, NoLossAtWrap;
      FloorKeptIff(init);
      KeepsFloorSnoc(init, e);
      NoLossSnoc(init, e);
      if c.rto >= RTO_MIN {
        if e.Lost? { LoseKeepsFloorIff(c); } else { SendedKeepsFloor(c, e.pack, e.time); }
        hide OnLose, OnSended;
      }
    }
  }

  lemma SendedKeepsFloor(c: Control, p: Pack, time: nat)
    requires c.rto >= RTO_MIN
    ensures OnSended(c, p, time).rto >= RTO_MIN
  {
  }

  /** Samples of up to 3276 ms keep the timeout below the wrap, so every such history keeps the floor. */
  lemma FastSamplesKeepFloor(events: seq<Event>)
    requires SamplesUpTo(events, 3276)
    ensures KeepsFloor(events)
  {
    forall k: nat | k < |events|
      ensures After(INITIAL, events[..k]).rto < 32768
    {
      EstimatorCeiling(events[..k], 3276);
    }
    FloorKeptIff(events);
  }

  // ---- what the events of a history do ----

  /** The acknowledgement of a packet that was sent once. */
  predicate First(e: Event) { e.Acked? && e.pack.times == 1 }

  /** The losses and the acknowledgements of first transmissions. */
  function Heard(events: seq<Event>): seq<Event> {
    if events == [] then []
    else
      var init, e := events[..|events| - 1], events[|events| - 1];
      if e.Lost? || First(e) then Heard(init) + [e] else Heard(init)
  }

  /** Acknowledgements of repeated packets leave no trace at all in any history. */
  lemma {:induction false} RepeatsAreInvisible(c: Control, events: seq<Event>)
    ensures After(c, events) == After(c, Heard(events))
  {
    if events != [] {
      var init, e := events[..|events| - 1], events[|events| - 1];
      RepeatsAreInvisible(c, init);
      if e.Lost? || First(e) { AfterSnoc(c, Heard(init), e); }
    }
  }

  lemma AfterSnoc(c: Control, events: seq<Event>, e: Event)
    ensures After(c, events + [e]) == Handle(After(c, events), e)
  {
    hide Handle;
    assert (events + [e])[..|events|] == events;
  }

  /** The acknowledgements of first transmissions alone. */
  function Samples(events: seq<Event>): seq<Event> {
    if events == [] then []
    else
      var init, e := events[..|events| - 1], events[|events| - 1];
      if First(e) then Samples(init) + [e] else Samples(init)
  }

  /** Round trip and deviation come from the samples alone: a loss changes neither. */
  lemma {:induction false} LossesKeepTheEstimate(c: Control, events: seq<Event>)
    ensures After(c, events).rtts == After(c, Samples(events)).rtts
    ensures After(c, events).rttd == After(c, Samples(events)).rttd
  {
    if events != [] {
      var init, e := events[..|events| - 1], events[|events| - 1];
      LossesKeepTheEstimate(c, init);
      if First(e) {
        AfterSnoc(c, Samples(init), e);
        SameEstimate(After(c, init), After(c, Samples(init)), Sample(e.pack, e.time));
        hide Estimate;
      }
    }
  }

  lemma SameEstimate(c: Control, d: Control, rtt: nat)
    requires c.rtts == d.rtts && c.rttd == d.rttd
    ensures Estimate(c, rtt).rtts == Estimate(d, rtt).rtts && Estimate(c, rtt).rttd == Estimate(d, rtt).rttd
  {
  }

  /** How many first transmissions were acknowledged since the last loss. */
  function FirstsSinceLoss(events: seq<Event>): nat {
    if events == [] || events[|events| - 1].Lost? then 0
    else FirstsSinceLoss(events[..|events| - 1]) + if First(events[|events| - 1]) then 1 else 0
  }

  /** The acknowledgements needed to grow the congestion window from 1 to k. */
  function GrowthCost(k: nat): int { (k - 1) * (k + 2) / 2 }

  lemma GrowthCostStep(k: nat)
    ensures GrowthCost(k + 1) == GrowthCost(k) + k + 1
  {
    assert k * (k + 3) == (k - 1) * (k + 2) + 2 * (k + 1);
  }

  /** Growing the window from 1 to k takes exactly (k - 1)(k + 2) / 2 acknowledgements of first transmissions: after any
      history the window is the largest k that those since the last loss pay for, and what is left over is the
      acknowledgement counter. */
  lemma {:induction false} GrowthIsTriangular(events: seq<Event>)
    ensures var c, n := After(INITIAL, events), FirstsSinceLoss(events);
            && 1 <= c.cwnd <= CWND_MAX && c.acks <= c.cwnd
            && GrowthCost(c.cwnd) + c.acks <= n
            && (c.cwnd < CWND_MAX ==> GrowthCost(c.cwnd) + c.acks == n < GrowthCost(c.cwnd + 1))
  {
    hide GrowthCost;
    assert GrowthCost(1) == 0 by { GrowthCostAtOne(); }
    if events != [] {
      GrowthIsTriangular(events[..|events| - 1]);
      GrowthCostStep(After(INITIAL, events[..|events| - 1]).cwnd);
    }
    GrowthCostStep(After(INITIAL, events).cwnd);
  }

  lemma GrowthCostAtOne()
    ensures GrowthCost(1) == 0
  {
  }
}
