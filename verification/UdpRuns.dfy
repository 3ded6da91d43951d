/** Whole runs of the protocol of cpp/Udp.cpp that show what its limits are for: messages older than the lifetime, and a
    round trip slow enough to wrap the 16-bit timeout. */
module UdpRuns {
  import opened Bytes
  import opened Wrappers
  import opened UdpLinkControl
  import opened UdpWindow
  import opened UdpProtocol

  // ---- the timer ----

  /** When the timer of the first outstanding packet is due. */
  function Due(s: State): Option<nat> {
    if s.snd.slots == [] || s.snd.slots[0].None? || s.snd.slots[0].value.time == 0 then None
    else Some(s.snd.slots[0].value.time + s.ctl.rto)
  }

  function Clock(e: Step): Option<nat> {
    match e
    case Transmit(t) => Some(t)
    case Timeout(t) => Some(t)
    case ArriveAck(_, t) => Some(t)
    case _ => None
  }

  /** The timer fires when it is due, neither later nor earlier. */
  predicate OnTime(s: State, e: Step) {
    if e.Timeout? then Due(s) == Some(e.time)
    else Clock(e).Some? && Due(s).Some? ==> Clock(e).value < Due(s).value
  }

  ghost predicate TimersOnTime(states: seq<State>, steps: seq<Step>) {
    |states| > |steps| && forall i :: 0 <= i < |steps| ==> OnTime(states[i], steps[i])
  }

  /** The clock never goes back, and shows no more than now. */
  ghost predicate Ticks(steps: seq<Step>, now: nat)
    decreases |steps|
  {
    steps == [] ||
      var init, at := steps[..|steps| - 1], Clock(steps[|steps| - 1]);
      if at.Some? then at.value <= now && Ticks(init, at.value) else Ticks(init, now)
  }

  /** A run to a state s in which every timer is on time, up to a time now. */
  ghost predicate Timely(states: seq<State>, steps: seq<Step>, s: State, now: nat) {
    Run(states, steps) && states[|steps|] == s && TimersOnTime(states, steps) && Ticks(steps, now)
  }

  lemma TicksOn(steps: seq<Step>, now: nat, e: Step)
    requires Ticks(steps, now) && (Clock(e).Some? ==> Clock(e).value >= now)
    ensures Ticks(steps + [e], if Clock(e).Some? then Clock(e).value else now)
  {
    var all := steps + [e];
    assert all[..|all| - 1] == steps;
    if Clock(e).Some? { TicksLater(steps, now, Clock(e).value); }
  }

  lemma {:induction false} TicksLater(steps: seq<Step>, now: nat, later: nat)
    requires Ticks(steps, now) && now <= later
    ensures Ticks(steps, later)
    decreases |steps|
  {
    if steps != [] && Clock(steps[|steps| - 1]).None? { TicksLater(steps[..|steps| - 1], now, later); }
  }

  lemma RunOn(states: seq<State>, steps: seq<Step>, e: Step)
    requires Run(states, steps) && states[|steps|].rcv.Valid() && Enabled(states[|steps|], e)
    ensures Run(states + [Apply(states[|steps|], e)], steps + [e])
  {
    hide Apply, Enabled;
  }

  lemma TimersOn(states: seq<State>, steps: seq<Step>, e: Step, t: State)
    requires TimersOnTime(states, steps) && |states| == |steps| + 1 && OnTime(states[|steps|], e)
    ensures TimersOnTime(states + [t], steps + [e])
  {
    hide OnTime;
  }

  lemma Extends(states: seq<State>, steps: seq<Step>, s: State, now: nat, e: Step)
    returns (more: seq<State>, done: seq<Step>)
    requires Timely(states, steps, s, now) && s.rcv.Valid() && Enabled(s, e) && OnTime(s, e)
    requires Clock(e).Some? ==> Clock(e).value >= now
    ensures Timely(more, done, Apply(s, e), if Clock(e).Some? then Clock(e).value else now)
  {
    var t := Apply(s, e);
    hide Apply, Enabled, OnTime, Clock, TimersOnTime, Ticks;
    more, done := states + [t], steps + [e];
    RunOn(states, steps, e);
    TimersOn(states, steps, e, t);
    TicksOn(steps, now, e);
    hide Run;
  }

  lemma TimelyCwnd(states: seq<State>, steps: seq<Step>, s: State, now: nat)
    requires Timely(states, steps, s, now)
    ensures s.ctl.cwnd >= 1
  {
    RunKeepsInv(states, steps, |steps|);
  }

  // ---- one packet at a time ----

  /** n packets were sent, received and acknowledged, and nothing is outstanding. */
  ghost predicate Quiet(s: State, n: nat) {
    && |s.queue| == n && s.snd == SendWin(n, [], 0)
    && s.rcv == RecvWin(if n == 0 then 1 else n, Empty(WIN_SIZE))
    && |s.delivered| == if n == 0 then 0 else n - 1
  }

  /** The first packet and the acknowledgement of the handshake never leave the network. */
  ghost predicate Remembers(s: State, n: nat) {
    && (n >= 1 ==> 0 in s.acks)
    && (n >= 2 ==> exists p :: Msg(1, p) in s.data)
  }

  lemma SubmitOne(s: State, n: nat)
    requires Quiet(s, n)
    ensures Enabled(s, Submit([])) && OnTime(s, Submit([]))
    ensures var t := Apply(s, Submit([]));
            && |t.queue| == n + 1 && t.snd == SendWin(n, [Some(Pack(Wire(n), [], 0, 0))], 0) && Due(t).None?
            && t.rcv == s.rcv && t.delivered == s.delivered && t.data == s.data && t.acks == s.acks && t.ctl == s.ctl
  {
    hide Wire;
    assert [] + [Some(Pack(Wire(n), [], 0, 0))] == [Some(Pack(Wire(n), [], 0, 0))];
  }

  lemma TransmitOne(s: State, n: nat, time: nat)
    requires s.rcv.Valid() && s.snd == SendWin(n, [Some(Pack(Wire(n), [], 0, 0))], 0) && time > 0 && s.ctl.cwnd >= 1
    ensures Enabled(s, Transmit(time)) && OnTime(s, Transmit(time))
    ensures var p := Pack(Wire(n), [], time, 1);
            var t := Apply(s, Transmit(time));
            && t == s.(snd := SendWin(n, [Some(p)], 1), data := t.data)
            && s.data <= t.data && Msg(n, p) in t.data
  {
    WireFacts(n, 0);
    hide Wire, Ahead;
    var p := Pack(Wire(n), [], time, 1);
    assert Stamped(s.snd.slots, 0, 1, time) == [Some(p)];
    assert Sends(s.snd.slots, 0, 1, time) == [p] by { assert Sends(s.snd.slots, 0, 0, time) == []; }
    assert p in FlushSends(s.snd, s.ctl.cwnd, time);
  }

  lemma ReceiveOne(s: State, n: nat, p: Pack)
    requires Msg(n, p) in s.data && p.sequence == Wire(n)
    requires s.rcv == RecvWin(if n == 0 then 1 else n, Empty(WIN_SIZE))
    ensures var e := if n == 0 then ArriveSync(Msg(n, p)) else ArriveData(Msg(n, p), true);
            && Enabled(s, e) && OnTime(s, e)
            && var t := Apply(s, e);
               && t == s.(rcv := RecvWin(n + 1, Empty(WIN_SIZE)), delivered := t.delivered, acks := s.acks + {n})
               && |t.delivered| == |s.delivered| + if n == 0 then 0 else 1
  {
    if n > 0 {
      WireFacts(n, 0);
      hide Wire, Ahead;
      var none := Empty(WIN_SIZE)[1..];
      assert LeadingSome(none) == 0 && none[0..] == none && none + Empty(1) == Empty(WIN_SIZE);
      assert Empty(WIN_SIZE)[1..1] == [];
    }
  }

  /** Its acknowledgement, or that of any packet whose number looks the same. */
  lemma AckOne(s: State, n: nat, p: Pack, k: nat, now: nat)
    requires s.snd == SendWin(n, [Some(p)], 1) && p.sequence == Wire(n) == Wire(k)
    requires s.rcv.Valid() && k in s.acks && now > 0 && |s.queue| == n + 1
    ensures Possible(s, ArriveAck(k, now)) && (k == n ==> Enabled(s, ArriveAck(k, now)))
    ensures Apply(s, ArriveAck(k, now)) == s.(snd := SendWin(n + 1, [], 0), ctl := OnSended(s.ctl, p, now))
  {
    WireFacts(n, 0);
    hide Wire, Ahead, OnSended;
    var w := SendWin(n + 1, [], 0);
    var gone := [Some(p)][0 := None];
    assert gone == [None] && LeadingNone(gone) == 1 && gone[1..] == [];
    assert Acknowledge(s.snd, Wire(n)) == w;
    forall cwnd: nat
      ensures Flushed(w, cwnd, now) == w && OnWire(w, FlushSends(w, cwnd, now)) == {}
    {
      assert Stamped([], 0, 0, now) == [];
    }
    assert s.data + {} == s.data;
  }

  /** One more packet is sent. */
  lemma SendOne(states: seq<State>, steps: seq<Step>, s: State, now: nat, n: nat, time: nat)
    returns (more: seq<State>, done: seq<Step>, t: State)
    requires Timely(states, steps, s, now) && Quiet(s, n) && 0 < time && now <= time
    ensures Timely(more, done, t, time)
    ensures var p := Pack(Wire(n), [], time, 1);
            && t == s.(queue := t.queue, snd := SendWin(n, [Some(p)], 1), data := t.data)
            && s.data <= t.data && Msg(n, p) in t.data && |t.queue| == n + 1
  {
    hide Wire, Apply, Timely, Enabled;
    TimelyCwnd(states, steps, s, now);
    SubmitOne(s, n);
    more, done := Extends(states, steps, s, now, Submit([]));
    var a := Apply(s, Submit([]));
    TransmitOne(a, n, time);
    more, done := Extends(more, done, a, now, Transmit(time));
    t := Apply(a, Transmit(time));
  }

  /** One more packet goes there and back in time. */
  lemma OneMore(states: seq<State>, steps: seq<Step>, s: State, now: nat, n: nat, time: nat, ack: nat)
    returns (more: seq<State>, done: seq<Step>, t: State)
    requires Timely(states, steps, s, now) && Quiet(s, n) && Remembers(s, n)
    requires 0 < time && now <= time <= ack < time + s.ctl.rto
    ensures Timely(more, done, t, ack) && Quiet(t, n + 1) && Remembers(t, n + 1)
    ensures t.ctl == OnSended(s.ctl, Pack(Wire(n), [], time, 1), ack)
  {
    hide Wire, Apply, OnSended, Timely, Enabled;
    var p := Pack(Wire(n), [], time, 1);
    var b;
    more, done, b := SendOne(states, steps, s, now, n, time);
    var e := if n == 0 then ArriveSync(Msg(n, p)) else ArriveData(Msg(n, p), true);
    ReceiveOne(b, n, p);
    more, done := Extends(more, done, b, time, e);
    var c := Apply(b, e);
    AckOne(c, n, p, n, ack);
    more, done := Extends(more, done, c, time, ArriveAck(n, ack));
    t := Apply(c, ArriveAck(n, ack));
    assert n == 1 ==> Msg(1, p) in b.data;
    assert n >= 2 ==> exists p :: Msg(1, p) in s.data;
  }

  lemma {:induction false} QuietRun(n: nat) returns (states: seq<State>, steps: seq<Step>, s: State)
    ensures Timely(states, steps, s, 1) && Quiet(s, n) && Remembers(s, n) && s.ctl.rto >= RTO_MIN
  {
    if n == 0 {
      states, steps, s := [INIT], [], INIT;
    } else {
      states, steps, s := QuietRun(n - 1);
      hide Timely, Quiet, Remembers, OnSended;
      SendedKeepsFloor(s.ctl, Pack(Wire(n - 1), [], 1, 1), 1);
      states, steps, s := OneMore(states, steps, s, 1, n - 1, 1, 1);
    }
  }

  // ---- beyond the lifetime ----

  /** A copy of the first packet that turns up 65536 packets later is delivered again: more comes out than went in. */
  lemma OldDataIsDeliveredAgain() returns (states: seq<State>, steps: seq<Step>, s: State, m: Msg)
    ensures Run(states, steps) && s == states[|steps|]
    ensures Possible(s, ArriveData(m, true)) && !FreshData(s, m)
    ensures s.rcv.Valid() && s.queue != [] && s.delivered == s.queue[1..]
    ensures Apply(s, ArriveData(m, true)).delivered == s.delivered + [m.pack.data]
  {
    states, steps, s := QuietRun(65537);
    RunKeepsInv(states, steps, |steps|);
    var p :| Msg(1, p) in s.data;
    m := Msg(1, p);
    assert p.sequence == 1 && Ahead(65537, 1) == 0;
    hide Wire, Ahead;
    var none := Empty(WIN_SIZE)[1..];
    assert LeadingSome(none) == 0;
    assert Payloads(Empty(WIN_SIZE)[1..1]) == [];
  }

  /** The acknowledgement of the handshake that turns up 65536 packets later frees a packet the receiver never had: the
      sender has nothing left to send, and the receiver misses the last packet. */
  lemma OldAckFreesAnother() returns (states: seq<State>, steps: seq<Step>, s: State)
    ensures Run(states, steps) && s == states[|steps|]
    ensures Possible(s, ArriveAck(0, 1)) && !FreshAck(s, 0) && s.rcv.Valid()
    ensures var t := Apply(s, ArriveAck(0, 1));
            t.snd.slots == [] && !Got(t, |t.queue| - 1) && |t.delivered| == |t.queue| - 2
  {
    states, steps, s := QuietRun(65536);
    states, steps, s := SendOne(states, steps, s, 1, 65536, 1);
    AckOne(s, 65536, Pack(Wire(65536), [], 1, 1), 0, 1);
  }

  // ---- a timeout below its minimum ----

  const LATE := Pack(3, [], 1000, 1)

  /** Packet 2 was sent k times, the last time at a given time; packet 3 was received, and its acknowledgement is
      about. */
  ghost predicate Behind(s: State, time: nat, k: u16, third: Option<Pack>) {
    && |s.queue| == 4 && s.rcv.Valid() && 3 in s.acks && 0 < time
    && s.snd.base == 2 && s.snd.slots == [Some(Pack(2, [], time, k)), third] && s.snd.sent >= 1
  }

  lemma TimerRepeats(s: State, time: nat, k: u16, third: Option<Pack>)
    requires Behind(s, time, k, third) && k <= 10
    ensures var e := Timeout(time + s.ctl.rto);
            && Enabled(s, e) && OnTime(s, e)
            && var t := Apply(s, e);
               Behind(t, e.time, k + 1, third) && t.ctl == OnLose(s.ctl) && t.snd.sent == 1
  {
    hide OnLose, OnWire;
    var p := Pack(2, [], time + s.ctl.rto, k + 1);
    assert s.snd.slots[0 := Some(p)] == [Some(p), third];
    assert Timer(s.snd, s.ctl, time + s.ctl.rto).Resent?;
  }

  /** The timer of packet 2 is due, and only packet 2 is repeated. */
  lemma BackOff(states: seq<State>, steps: seq<Step>, s: State, now: nat, time: nat, k: u16, third: Option<Pack>)
    returns (more: seq<State>, done: seq<Step>, t: State)
    requires Timely(states, steps, s, now) && Behind(s, time, k, third) && k <= 10 && time + s.ctl.rto >= now
    ensures Timely(more, done, t, time + s.ctl.rto) && Behind(t, time + s.ctl.rto, k + 1, third)
    ensures t.ctl == OnLose(s.ctl) && t.snd.sent == 1
  {
    hide Timely, OnLose, Apply, Enabled, OnTime;
    TimerRepeats(s, time, k, third);
    var e := Timeout(time + s.ctl.rto);
    more, done := Extends(states, steps, s, now, e);
    t := Apply(s, e);
  }

  lemma TransmitTwo(s: State, p: Pack, q: Pack)
    requires s.rcv.Valid() && s.snd == SendWin(2, [Some(p), Some(q)], 0) && s.ctl.cwnd == 2
    requires p == Pack(2, [], 0, 0) && q == Pack(3, [], 0, 0)
    ensures Enabled(s, Transmit(1000)) && OnTime(s, Transmit(1000))
    ensures var t := Apply(s, Transmit(1000));
            && t == s.(snd := SendWin(2, [Some(Pack(2, [], 1000, 1)), Some(LATE)], 2), data := t.data)
            && Msg(3, LATE) in t.data
  {
    var a := Pack(2, [], 1000, 1);
    assert Stamped(s.snd.slots, 0, 2, 1000) == [Some(a), Some(LATE)];
    assert Sends(s.snd.slots, 0, 0, 1000) == [] && Sends(s.snd.slots, 0, 1, 1000) == [a];
    assert Sends(s.snd.slots, 0, 2, 1000) == [a] + [LATE];
    assert LATE in FlushSends(s.snd, 2, 1000);
    assert Ahead(2, 3) == 1;
  }

  lemma SubmitAgain(s: State, p: Pack)
    requires s.rcv.Valid() && s.snd == SendWin(2, [Some(p)], 0)
    ensures Enabled(s, Submit([])) && OnTime(s, Submit([]))
    ensures var t := Apply(s, Submit([]));
            t == s.(snd := SendWin(2, [Some(p), Some(Pack(3, [], 0, 0))], 0), queue := s.queue + [[]])
  {
    var q := Pack(3, [], 0, 0);
    assert [Some(p)] + [Some(q)] == [Some(p), Some(q)];
  }

  lemma ReceiveEarly(s: State)
    requires Msg(3, LATE) in s.data && s.rcv == RecvWin(2, Empty(WIN_SIZE))
    ensures var e := ArriveData(Msg(3, LATE), true);
            && Enabled(s, e) && OnTime(s, e)
            && var t := Apply(s, e);
               && 3 in t.acks && t.rcv.Valid()
               && t.queue == s.queue && t.snd == s.snd && t.ctl == s.ctl
  {
    assert Ahead(2, 3) == 1;
  }

  /** Packets 2 and 3 are sent together; packet 2 is lost, and packet 3 arrives. */
  lemma TwoAtOnce(states: seq<State>, steps: seq<Step>, s: State)
    returns (more: seq<State>, done: seq<Step>, t: State)
    requires Timely(states, steps, s, 999) && Quiet(s, 2) && s.ctl.cwnd == 2
    ensures Timely(more, done, t, 1000) && Behind(t, 1000, 1, Some(LATE)) && t.ctl == s.ctl
  {
    hide Timely, Apply, Enabled, OnTime;
    var p, q := Pack(2, [], 0, 0), Pack(3, [], 0, 0);
    SubmitOne(s, 2);
    more, done := Extends(states, steps, s, 999, Submit([]));
    t := Apply(s, Submit([]));
    SubmitAgain(t, p);
    more, done := Extends(more, done, t, 999, Submit([]));
    t := Apply(t, Submit([]));
    TransmitTwo(t, p, q);
    more, done := Extends(more, done, t, 999, Transmit(1000));
    t := Apply(t, Transmit(1000));
    var e := ArriveData(Msg(3, LATE), true);
    ReceiveEarly(t);
    more, done := Extends(more, done, t, 1000, e);
    t := Apply(t, e);
  }

  lemma AckSecond(s: State, time: nat, k: u16)
    requires Behind(s, time, k, Some(LATE)) && s.snd.sent == 1 && OnSended(s.ctl, LATE, 15620).cwnd == 1
    ensures Enabled(s, ArriveAck(3, 15620))
    ensures var t := Apply(s, ArriveAck(3, 15620));
            && t.snd == SendWin(2, [Some(Pack(2, [], time, k)), None], 1) && t.ctl == OnSended(s.ctl, LATE, 15620)
            && t.queue == s.queue && t.rcv == s.rcv && t.acks == s.acks
  {
    hide OnSended;
    assert Ahead(2, 3) == 1;
    var slots := [Some(Pack(2, [], time, k)), None];
    assert s.snd.slots[1 := None] == slots && LeadingNone(slots) == 0 && slots[0..] == slots;
    assert Acknowledge(s.snd, 3) == SendWin(2, slots, 1);
    assert Stamped(slots, 1, 1, 15620) == slots;
  }

  /** The acknowledgement of packet 3, sent once and never repeated, is 14620 ms old. */
  lemma LateAck(states: seq<State>, steps: seq<Step>, s: State, now: nat, time: nat, k: u16)
    returns (more: seq<State>, done: seq<Step>, t: State)
    requires Timely(states, steps, s, now) && Behind(s, time, k, Some(LATE)) && now <= 15620 < time + s.ctl.rto
    requires s.snd.sent == 1 && s.ctl == Control(5000, 499, 0, 0, 1)
    ensures Timely(more, done, t, 15620) && Behind(t, time, k, None) && t.ctl.rto == 32770
  {
    LateSample(s.ctl);
    AckSecond(s, time, k);
    hide Timely, Apply, Enabled, OnSended;
    more, done := Extends(states, steps, s, now, ArriveAck(3, 15620));
    t := Apply(s, ArriveAck(3, 15620));
  }

  lemma LateSample(c: Control)
    requires c == Control(5000, 499, 0, 0, 1)
    ensures var d := OnSended(c, LATE, 15620); d.rto == 32770 && d.cwnd == 1
  {
    hide Estimate;
    EstimateIs(c, 14620, 14121);
  }

  lemma QuickSamples()
    ensures OnSended(INITIAL, Pack(0, [], 1, 1), 500) == Control(1000, 499, 0, 1, 1)
    ensures OnSended(Control(1000, 499, 0, 1, 1), Pack(1, [], 500, 1), 999) == Control(998, 499, 0, 0, 2)
  {
    hide Estimate;
    EstimateIs(INITIAL, 499, 1);
    EstimateIs(Control(1000, 499, 0, 1, 1), 499, 0);
  }

  /** Where nothing wraps. */
  lemma EstimateIs(c: Control, rtt: nat, dev: nat)
    requires dev == 3 * c.rttd + Rang(c.rtts, rtt)
    requires var rtts := (7 * c.rtts + rtt) / 8; 5 <= rtts + dev < 32768
    ensures var rtts := (7 * c.rtts + rtt) / 8;
            Estimate(c, rtt) == c.(rtts := rtts, rttd := dev / 4, rto := 2 * (rtts + dev))
  {
    EstimateFitsIff(c, rtt);
    hide Estimate;
  }

  lemma Losses()
    ensures OnLose(Control(998, 499, 0, 0, 2)) == Control(1996, 499, 0, 0, 1)
    ensures OnLose(Control(1996, 499, 0, 0, 1)) == Control(3992, 499, 0, 0, 1)
    ensures OnLose(Control(3992, 499, 0, 0, 1)) == Control(5000, 499, 0, 0, 1)
    ensures OnLose(Control(5000, 499, 0, 0, 1)) == Control(5000, 499, 0, 0, 1)
    ensures forall c: Control :: c.rto == 32770 ==> OnLose(c).rto == 4
  {
  }

  /** A run in which every timer is on time and yet the timeout ends at 4 ms, below its minimum of 10: a first packet is
      lost five times, the one behind it is acknowledged only after 14620 ms, and then the timer doubles 32770 in
      16 bits. */
  lemma FloorLostExample() returns (states: seq<State>, steps: seq<Step>, s: State)
    ensures Timely(states, steps, s, 45756) && s.ctl.rto == 4 < RTO_MIN
  {
    states, steps, s := [INIT], [], INIT;
    QuickSamples();
    assert Timely(states, steps, s, 1) && Quiet(s, 0) && Remembers(s, 0);
    Losses();
    hide Timely, OnSended, OnLose, Behind, Quiet, Remembers;
    states, steps, s := OneMore(states, steps, s, 1, 0, 1, 500);
    states, steps, s := OneMore(states, steps, s, 500, 1, 500, 999);
    states, steps, s := TwoAtOnce(states, steps, s);
    states, steps, s := BackOff(states, steps, s, 1000, 1000, 1, Some(LATE));
    states, steps, s := BackOff(states, steps, s, 1998, 1998, 2, Some(LATE));
    states, steps, s := BackOff(states, steps, s, 3994, 3994, 3, Some(LATE));
    states, steps, s := BackOff(states, steps, s, 7986, 7986, 4, Some(LATE));
    states, steps, s := LateAck(states, steps, s, 12986, 12986, 5);
    states, steps, s := BackOff(states, steps, s, 15620, 12986, 5, None);
  }
}
