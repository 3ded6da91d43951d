/** What the congestion window and the timer of cpp/Udp.cpp let out, over whole runs. */
module UdpCongestion {
  import opened Bytes
  import opened Wrappers
  import opened UdpLinkControl
  import opened UdpWindow
  import opened UdpProtocol

  // ---- no more than the window ----

  ghost predicate WithinWindow(s: State) { s.snd.sent <= s.ctl.cwnd }

  lemma FlushWithin(w: SendWin, cwnd: nat, time: nat)
    ensures Flushed(w, cwnd, time).sent <= if w.sent > cwnd then w.sent else cwnd
  {
  }

  lemma SendedNeverShrinks(c: Control, p: Pack, time: nat)
    requires c.cwnd <= CWND_MAX
    ensures c.cwnd <= OnSended(c, p, time).cwnd <= CWND_MAX
  {
  }

  lemma AckNeverAdds(w: SendWin, sequence: u16)
    requires Held(w, sequence).Some?
    ensures Acknowledge(w, sequence).sent <= w.sent
  {
  }

  lemma StepKeepsWindow(s: State, e: Step)
    requires Inv(s) && WithinWindow(s) && Enabled(s, e)
    ensures WithinWindow(Apply(s, e))
  {
    hide Flushed, FlushSends, OnWire, Acknowledge, OnSended, Held, Take;
    match e
    case Transmit(time) => FlushWithin(s.snd, s.ctl.cwnd, time);
    case ArriveAck(n, now) =>
      var h := Held(s.snd, Wire(n));
      if h.Some? {
        AckNeverAdds(s.snd, Wire(n));
        SendedNeverShrinks(s.ctl, h.value, now);
        FlushWithin(Acknowledge(s.snd, Wire(n)), OnSended(s.ctl, h.value, now).cwnd, now);
      }
    case _ =>
  }

  lemma {:induction false} RunKeepsWindow(states: seq<State>, steps: seq<Step>, k: nat)
    requires Run(states, steps) && k < |states|
    ensures Inv(states[k]) && WithinWindow(states[k])
  {
    RunKeepsInv(states, steps, k);
    if k > 0 {
      RunKeepsWindow(states, steps, k - 1);
      StepKeepsWindow(states[k - 1], steps[k - 1]);
    }
  }

  /** What a flush sends has a number below base + cwnd. */
  lemma FlushedNumbers(w: SendWin, cwnd: nat, time: nat, m: Msg)
    requires w.Valid() && m in OnWire(w, FlushSends(w, cwnd, time))
    ensures w.base + w.sent <= m.n < w.base + cwnd
  {
    SendsComeFromSlots(w.slots, w.sent, Limit(w, cwnd), time);
    var i :| w.sent <= i < Limit(w, cwnd) && w.slots[i].Some? && m.pack == Stamp(w.slots[i].value, time);
    WireFacts(w.base, i);
    hide Wire, Ahead;
  }

  /** In every run each packet that a step puts on the wire lies within the congestion window as it is then. */
  lemma CongestionObeyed(states: seq<State>, steps: seq<Step>, k: nat, m: Msg)
    requires Run(states, steps) && k < |steps| && m in states[k + 1].data && m !in states[k].data
    ensures var t := states[k + 1]; t.snd.base <= m.n < t.snd.base + t.ctl.cwnd
  {
    RunKeepsInv(states, steps, k);
    RunKeepsInv(states, steps, k + 1);
    StepSends(states[k], steps[k], m);
  }

  lemma StepSends(s: State, e: Step, m: Msg)
    requires Inv(s) && Enabled(s, e) && m in Apply(s, e).data && m !in s.data
    ensures var t := Apply(s, e); t.snd.base <= m.n < t.snd.base + t.ctl.cwnd
  {
    hide FlushSends, Acknowledge, OnSended, Held, Take, Wire, Ahead;
    match e
    case Transmit(time) => FlushedNumbers(s.snd, s.ctl.cwnd, time, m);
    case ArriveAck(n, now) =>
      var h := Held(s.snd, Wire(n));
      if h.Some? {
        var w := Acknowledge(s.snd, Wire(n));
        AckValid(s, n);
        FlushedNumbers(w, OnSended(s.ctl, h.value, now).cwnd, now, m);
      }
    case Timeout(time) => WireFacts(s.snd.base, 0);
    case _ =>
  }

  lemma AckValid(s: State, n: nat)
    requires Inv(s) && Held(s.snd, Wire(n)).Some?
    ensures Acknowledge(s.snd, Wire(n)).Valid()
  {
    var d := Ahead(s.snd.base, Wire(n));
    SlideValid(s.snd.(slots := s.snd.slots[d := None]));
    hide Ahead, Wire;
  }

  // ---- and no less ----

  lemma {:induction false} SlotIsSent(s: Slots, lo: nat, hi: nat, time: nat, i: nat)
    requires lo <= i < hi <= |s| && s[i].Some?
    ensures Stamp(s[i].value, time) in Sends(s, lo, hi, time)
    decreases hi
  {
    if i < hi - 1 {
      SlotIsSent(s, lo, hi - 1, time, i);
    }
  }

  lemma FlushSendsAll(w: SendWin, cwnd: nat, time: nat, i: nat)
    requires w.Valid() && w.sent <= i < |w.slots| && i < cwnd && w.slots[i].Some?
    ensures Msg(w.base + i, Stamp(w.slots[i].value, time)) in OnWire(w, FlushSends(w, cwnd, time))
  {
    SlotIsSent(w.slots, w.sent, Limit(w, cwnd), time, i);
    WireFacts(w.base, i);
    hide Wire, Ahead;
  }

  /** A flush leaves no packet of the congestion window unsent. */
  lemma NothingHeldBack(s: State, time: nat, i: nat)
    requires Inv(s) && time > 0 && s.snd.sent <= i < |s.snd.slots| && i < s.ctl.cwnd && s.snd.slots[i].Some?
    ensures var t := Apply(s, Transmit(time));
            t.snd.sent > i && Msg(s.snd.base + i, Stamp(s.snd.slots[i].value, time)) in t.data
  {
    hide OnWire, FlushSends;
    FlushSendsAll(s.snd, s.ctl.cwnd, time, i);
  }

  /** Nor does an acknowledgement that frees a packet, in the window as it then is. */
  lemma AckHoldsNothingBack(s: State, n: nat, now: nat, i: nat)
    requires Inv(s) && Enabled(s, ArriveAck(n, now)) && Held(s.snd, Wire(n)).Some?
    requires var w := Acknowledge(s.snd, Wire(n));
             && w.sent <= i < |w.slots| && w.slots[i].Some?
             && i < OnSended(s.ctl, Held(s.snd, Wire(n)).value, now).cwnd
    ensures var w, t := Acknowledge(s.snd, Wire(n)), Apply(s, ArriveAck(n, now));
            && t.snd.base == w.base && t.snd.sent > i
            && Msg(w.base + i, Stamp(w.slots[i].value, now)) in t.data
  {
    hide OnWire, FlushSends, Acknowledge, OnSended, Held, Wire;
    AckValid(s, n);
    FlushSendsAll(Acknowledge(s.snd, Wire(n)), OnSended(s.ctl, Held(s.snd, Wire(n)).value, now).cwnd, now, i);
  }

  // ---- and only once ----

  /** A packet of the window was sent once if it lies before the unsent mark, and never otherwise. */
  ghost predicate SentOnce(w: SendWin) {
    forall i :: 0 <= i < |w.slots| && w.slots[i].Some? ==> w.slots[i].value.times == if i < w.sent then 1 else 0
  }

  lemma FlushSendsOnce(w: SendWin, cwnd: nat, time: nat, m: Msg)
    requires SentOnce(w)
    ensures SentOnce(Flushed(w, cwnd, time))
    ensures m in OnWire(w, FlushSends(w, cwnd, time)) ==> m.pack.times == 1
  {
    SendsComeFromSlots(w.slots, w.sent, Limit(w, cwnd), time);
    hide Ahead;
  }

  lemma SlideSendsOnce(w: SendWin, n: nat)
    requires SentOnce(w) && n <= |w.slots|
    ensures SentOnce(Slide(w, n))
  {
    assert forall i :: 0 <= i < |w.slots[n..]| ==> w.slots[n..][i] == w.slots[n + i];
  }

  lemma StepSendsOnce(s: State, e: Step, m: Msg)
    requires Inv(s) && Enabled(s, e) && SentOnce(s.snd) && (e.Timeout? ==> Apply(s, e) == s)
    ensures var t := Apply(s, e);
            SentOnce(t.snd) && (m in t.data && m !in s.data ==> m.pack.times == 1)
  {
    hide Flushed, FlushSends, OnWire, OnSended, Take, Wire, Timer;
    match e
    case Transmit(time) => FlushSendsOnce(s.snd, s.ctl.cwnd, time, m);
    case ArriveAck(n, now) =>
      var h := Held(s.snd, Wire(n));
      if h.Some? {
        var cleared := s.snd.(slots := s.snd.slots[Ahead(s.snd.base, Wire(n)) := None]);
        SlideSendsOnce(cleared, LeadingNone(cleared.slots));
        FlushSendsOnce(Acknowledge(s.snd, Wire(n)), OnSended(s.ctl, h.value, now).cwnd, now, m);
      }
    case _ =>
  }

  /** In every run, as long as the timer has repeated nothing, no packet goes out twice. */
  lemma {:induction false} RunSendsOnce(states: seq<State>, steps: seq<Step>, k: nat, m: Msg)
    requires Run(states, steps) && k < |states|
    requires forall j :: 0 <= j < k && steps[j].Timeout? ==> states[j + 1] == states[j]
    ensures SentOnce(states[k].snd) && (m in states[k].data ==> m.pack.times == 1)
  {
    hide Inv, Enabled, Apply, SentOnce;
    if k > 0 {
      hide Run;
      RunSendsOnce(states, steps, k - 1, m);
      StepOfRun(states, steps, k - 1);
      StepSendsOnce(states[k - 1], steps[k - 1], m);
    } else {
      NothingSentYet(states, steps);
    }
  }

  lemma NothingSentYet(states: seq<State>, steps: seq<Step>)
    requires Run(states, steps)
    ensures SentOnce(states[0].snd) && states[0].data == {}
  {
  }

  // ---- the timer ----

  /** The timer does something exactly when a packet is outstanding that was sent, has tries left and is overdue. */
  lemma TimeoutIff(s: State, time: nat)
    requires Inv(s) && time > 0
    ensures Apply(s, Timeout(time)) != s <==>
            && s.snd.slots != []
            && var p := s.snd.slots[0].value; 0 < p.time <= time - s.ctl.rto && p.times <= 10
  {
    hide OnWire;
    var t := Apply(s, Timeout(time));
    if Timer(s.snd, s.ctl, time).Resent? {
      assert t.snd.slots[0].value.times != s.snd.slots[0].value.times;
    }
  }

  /** The time it answers is when it will be due again. */
  lemma TimerRearms(s: State, time: nat)
    requires Inv(s) && time > 0 && !Timer(s.snd, s.ctl, time).Idle? && !Timer(s.snd, s.ctl, time).Failed?
    ensures var r, t := Timer(s.snd, s.ctl, time), Apply(s, Timeout(time));
            (if r.Later? then r.at else r.next) == t.snd.slots[0].value.time + t.ctl.rto
  {
    hide OnWire, OnLose;
  }

  // ---- how often one packet goes out ----

  /** The timer gives up a packet at the base after ten repeats. */
  function Losses(times: nat): nat { if times == 0 then 0 else if times > 11 then 10 else times - 1 }

  /** And what is repeated at an earlier base is sent again only inside the congestion window. */
  function Allowance(i: nat): nat { if i < CWND_MAX then 1 + 10 * (CWND_MAX - 1 - i) else 1 }

  /** A packet that is not marked as sent counts for the transmission it still gets. */
  function Due(w: SendWin, i: nat): nat
    requires i < |w.slots| && w.slots[i].Some?
  {
    w.slots[i].value.times + if i < w.sent then 0 else 1
  }

  ghost predicate DueWithin(w: SendWin, i: nat) {
    i < |w.slots| && w.slots[i].Some? ==>
      && (w.slots[i].value.time > 0 ==> w.slots[i].value.times > 0)
      && (i >= CWND_MAX ==> w.slots[i].value.times == 0)
      && (i == 0 ==> Due(w, 0) <= Allowance(0))
      && (i > 0 && w.slots[0].Some? ==> Due(w, i) <= Allowance(i) + Losses(w.slots[0].value.times))
  }

  ghost predicate Tries(w: SendWin) { forall i: nat :: DueWithin(w, i) }

  lemma FlushTries(w: SendWin, cwnd: nat, time: nat)
    requires Tries(w) && w.Valid() && cwnd <= CWND_MAX && w.sent <= CWND_MAX && time > 0
    ensures Tries(Flushed(w, cwnd, time))
  {
    forall i: nat
      ensures DueWithin(Flushed(w, cwnd, time), i)
    {
      FlushDue(w, cwnd, time, i);
    }
  }

  lemma FlushDue(w: SendWin, cwnd: nat, time: nat, i: nat)
    requires DueWithin(w, i) && DueWithin(w, 0)
    requires w.Valid() && cwnd <= CWND_MAX && w.sent <= CWND_MAX && time > 0
    ensures DueWithin(Flushed(w, cwnd, time), i)
  {
    if i < |w.slots| {
      FlushedSlot(w, cwnd, time, i);
      FlushedSlot(w, cwnd, time, 0);
    }
    hide Numbered, Flushed, Stamped;
  }

  lemma FlushedSlot(w: SendWin, cwnd: nat, time: nat, i: nat)
    requires i < |w.slots|
    ensures var t, n := Flushed(w, cwnd, time), Limit(w, cwnd);
            && |t.slots| == |w.slots| && t.sent == (if w.sent > n then w.sent else n)
            && t.slots[i] ==
               if w.sent <= i < n && w.slots[i].Some? then Some(Stamp(w.slots[i].value, time)) else w.slots[i]
  {
  }

  /** Where the base moves, the allowance of the packets behind it grows by more than the old base could lose. */
  lemma SlideTries(w: SendWin, d: nat)
    requires Tries(w) && w.Valid() && d < |w.slots| && w.slots[d].Some? && w.sent <= CWND_MAX
    ensures var c := w.(slots := w.slots[d := None]); Tries(Slide(c, LeadingNone(c.slots)))
  {
    var c := w.(slots := w.slots[d := None]);
    var n := LeadingNone(c.slots);
    var t := Slide(c, n);
    forall i: nat
      ensures DueWithin(t, i)
    {
      assert DueWithin(w, n + i) && DueWithin(w, 0);
      assert i < |t.slots| ==> t.slots[i] == c.slots[n + i];
    }
  }

  lemma RetryTries(w: SendWin, time: nat)
    requires Tries(w) && w.Valid() && w.slots != [] && w.sent <= CWND_MAX && time > 0
    requires 0 < w.slots[0].value.time && w.slots[0].value.times <= 10
    ensures Tries(Retried(w, time))
  {
    var t := Retried(w, time);
    forall i: nat
      ensures DueWithin(t, i)
    {
      assert DueWithin(w, i) && DueWithin(w, 0);
    }
  }

  lemma SubmitTries(w: SendWin, payload: seq<u8>)
    requires Tries(w) && w.Valid()
    ensures Tries(Enqueued(w, Pack(0, payload, 0, 0)))
  {
    hide Wire;
    var t := Enqueued(w, Pack(0, payload, 0, 0));
    forall i: nat
      ensures DueWithin(t, i)
    {
      assert DueWithin(w, i) && DueWithin(w, 0);
    }
  }

  lemma StepTries(s: State, e: Step)
    requires Inv(s) && Enabled(s, e) && WithinWindow(s) && Tries(s.snd)
    ensures Tries(Apply(s, e).snd)
  {
    hide Tries, Flushed, FlushSends, OnWire, OnSended, Take, Wire, Slide;
    match e
    case Submit(payload) => SubmitTries(s.snd, payload);
    case Transmit(time) => FlushTries(s.snd, s.ctl.cwnd, time);
    case Timeout(time) =>
      if Timer(s.snd, s.ctl, time).Resent? {
        RetryTries(s.snd, time);
      }
    case ArriveAck(n, now) =>
      var h := Held(s.snd, Wire(n));
      if h.Some? {
        AckTries(s, n, now);
      }
    case _ =>
  }

  lemma AckTries(s: State, n: nat, now: nat)
    requires Inv(s) && WithinWindow(s) && Tries(s.snd) && Held(s.snd, Wire(n)).Some? && now > 0
    ensures var w := Acknowledge(s.snd, Wire(n));
            Tries(Flushed(w, OnSended(s.ctl, Held(s.snd, Wire(n)).value, now).cwnd, now))
  {
    hide Tries, Flushed, OnSended, Wire, Ahead;
    SlideTries(s.snd, Ahead(s.snd.base, Wire(n)));
    AckValid(s, n);
    AckNeverAdds(s.snd, Wire(n));
    SendedNeverShrinks(s.ctl, Held(s.snd, Wire(n)).value, now);
    FlushTries(Acknowledge(s.snd, Wire(n)), OnSended(s.ctl, Held(s.snd, Wire(n)).value, now).cwnd, now);
  }

  lemma {:induction false} RunTries(states: seq<State>, steps: seq<Step>, k: nat)
    requires Run(states, steps) && k < |states|
    ensures Tries(states[k].snd)
  {
    hide Inv, Enabled, Apply, WithinWindow;
    if k > 0 {
      hide Tries;
      RunTries(states, steps, k - 1);
      RunKeepsWindow(states, steps, k - 1);
      StepOfRun(states, steps, k - 1);
      StepTries(states[k - 1], steps[k - 1]);
    }
  }

  /** Over every run no packet goes out more than 71 times: once, and ten more times for each of the seven packets that
      can be ahead of it in the congestion window. So its 16-bit count never wraps. */
  lemma TransmissionsAreLimited(states: seq<State>, steps: seq<Step>, k: nat, i: nat)
    requires Run(states, steps) && k < |states| && i < |states[k].snd.slots| && states[k].snd.slots[i].Some?
    ensures states[k].snd.slots[i].value.times <= 71
  {
    hide Run, Inv;
    RunTries(states, steps, k);
    ValidInRun(states, steps, k);
    assert DueWithin(states[k].snd, i);
  }

  lemma ValidInRun(states: seq<State>, steps: seq<Step>, k: nat)
    requires Run(states, steps) && k < |states|
    ensures states[k].snd.Valid()
  {
    RunKeepsInv(states, steps, k);
  }

  // ---- how often the timer repeats one packet ----

  /** How often the timer repeats a packet between two states. */
  ghost function Repeats(states: seq<State>, steps: seq<Step>, i: nat, j: nat): nat
    requires i <= j < |states| && j <= |steps|
    decreases j
  {
    if i == j then 0
    else Repeats(states, steps, i, j - 1) + if steps[j - 1].Timeout? && states[j] != states[j - 1] then 1 else 0
  }

  /** After r repeats the first packet is one that was sent, and was transmitted once more than that at least. */
  ghost predicate Repeated(w: SendWin, r: nat) {
    r > 0 ==> w.sent > 0 && w.slots != [] && w.slots[0].Some? && r < w.slots[0].value.times <= 11
  }

  /** In any stretch of any run in which the first outstanding packet stays the same, the timer repeats it at most
      ten times. */
  lemma {:induction false} TriesAreLimited(states: seq<State>, steps: seq<Step>, i: nat, j: nat)
    requires Run(states, steps) && i <= j < |states|
    requires forall k :: i <= k <= j ==> states[k].snd.base == states[i].snd.base
    ensures Repeats(states, steps, i, j) <= 10 && Repeated(states[j].snd, Repeats(states, steps, i, j))
    decreases j
  {
    hide Run, Inv, Enabled, Apply;
    if i < j {
      hide Repeated, Tries;
      RunTries(states, steps, j - 1);
      TriesAreLimited(states, steps, i, j - 1);
      StepOfRun(states, steps, j - 1);
      OneMoreTry(states[j - 1], steps[j - 1], Repeats(states, steps, i, j - 1));
    }
  }

  lemma StepOfRun(states: seq<State>, steps: seq<Step>, k: nat)
    requires Run(states, steps) && k + 1 < |states|
    ensures |states| == |steps| + 1 && Inv(states[k]) && Enabled(states[k], steps[k])
    ensures states[k + 1] == Apply(states[k], steps[k])
  {
    hide Inv, Enabled, Apply;
    RunKeepsInv(states, steps, k);
  }

  lemma OneMoreTry(s: State, e: Step, r: nat)
    requires Inv(s) && Enabled(s, e) && Tries(s.snd)
    requires Apply(s, e).snd.base == s.snd.base && r <= 10 && Repeated(s.snd, r)
    ensures var t := Apply(s, e);
            var n := r + if e.Timeout? && t != s then 1 else 0;
            n <= 10 && Repeated(t.snd, n)
  {
    if e.Timeout? {
      assert DueWithin(s.snd, 0);
      TimeoutRepeats(s, e.time);
    } else if r > 0 {
      FirstStays(s, e);
    }
    hide Inv, Apply, Enabled;
  }

  lemma TimeoutRepeats(s: State, time: nat)
    requires Inv(s) && time > 0
    ensures var t := Apply(s, Timeout(time));
            t != s ==>
              && s.snd.slots != [] && 0 < s.snd.slots[0].value.time && s.snd.slots[0].value.times <= 10
              && t.snd.slots != [] && t.snd.slots[0].Some?
              && t.snd.sent == 1 && t.snd.slots[0].value.times == s.snd.slots[0].value.times + 1
  {
    hide OnWire, OnLose;
  }

  /** Only the timer touches a first packet that was sent, until it is acknowledged. */
  lemma FirstStays(s: State, e: Step)
    requires Inv(s) && Enabled(s, e) && !e.Timeout? && s.snd.sent > 0 && s.snd.slots != []
    requires Apply(s, e).snd.base == s.snd.base
    ensures var t := Apply(s, e); t.snd.sent > 0 && t.snd.slots != [] && t.snd.slots[0] == s.snd.slots[0]
  {
    hide OnWire, FlushSends, OnSended, Take, Wire;
    if e.ArriveAck? && Held(s.snd, Wire(e.n)).Some? {
      var w := Acknowledge(s.snd, Wire(e.n));
      var c := s.snd.slots[Ahead(s.snd.base, Wire(e.n)) := None];
      assert w.base == s.snd.base + LeadingNone(c);
      assert c[0..] == c;
      hide Ahead;
    }
  }
}
