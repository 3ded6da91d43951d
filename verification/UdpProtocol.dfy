/** One direction of a link as a step system (cpp/Udp.cpp): the sending window and its control at one end, the
    receiving window at the other, and in between a network that loses, duplicates and reorders in both directions.
    Endpoints see 16-bit sequence numbers only; the number n carried by a message is history. */
module UdpProtocol {
  import opened Bytes
  import opened Wrappers
  import opened UdpLinkControl
  import opened UdpWindow

  datatype Msg = Msg(n: nat, pack: Pack)

  /** queue holds every payload ever accepted for sending; queue[0] is the handshake packet, which the receiving
      window (opened at 1) never sees. */
  datatype State = State(
    queue: seq<seq<u8>>,
    snd: SendWin,
    ctl: Control,
    rcv: RecvWin,
    delivered: seq<seq<u8>>,
    data: set<Msg>,
    acks: set<nat>)

  const INIT := State([], SendWin(0, [], 0), INITIAL, RecvWin(1, Empty(WIN_SIZE)), [], {}, {})

  datatype Step =
    | Submit(payload: seq<u8>)
    | Transmit(time: nat)
    | Timeout(time: nat)
    | ArriveSync(m: Msg)
    | ArriveData(m: Msg, allocOk: bool)
    | ArriveAck(n: nat, now: nat)
    | LoseData(lost: Msg)
    | LoseAck(lostAck: nat)

  /** A data packet is at most 65536 - 64 numbers older than the receiver's base. */
  predicate FreshData(s: State, m: Msg) { m.n + SEQ_MOD >= s.rcv.base + WIN_SIZE }

  /** An acknowledgement is less than 65536 numbers older than the newest submitted packet. */
  predicate FreshAck(s: State, n: nat) { n + SEQ_MOD >= |s.queue| }

  /** Messages are delivered only while they are in the network, and stay there: a copy may arrive again. */
  predicate Possible(s: State, e: Step) {
    match e
    case Submit(_) => |s.snd.slots| < WIN_SIZE
    case Transmit(time) => time > 0
    case Timeout(time) => time > 0
    case ArriveSync(m) => m in s.data && m.n == 0
    case ArriveData(m, _) => m in s.data && m.n > 0
    case ArriveAck(n, now) => n in s.acks && now > 0
    case LoseData(_) => true
    case LoseAck(_) => true
  }

  /** And within their lifetime. */
  predicate Enabled(s: State, e: Step) {
    && Possible(s, e)
    && (e.ArriveData? ==> FreshData(s, e.m))
    && (e.ArriveAck? ==> FreshAck(s, e.n))
  }

  function OnWire(w: SendWin, sends: seq<Pack>): set<Msg> {
    set p | p in sends :: Msg(w.base + Ahead(w.base, p.sequence), p)
  }

  function Apply(s: State, e: Step): State
    requires s.rcv.Valid() && Possible(s, e)
  {
    match e
    case Submit(payload) =>
      s.(queue := s.queue + [payload], snd := Enqueued(s.snd, Pack(0, payload, 0, 0)))
    case Transmit(time) =>
      s.(snd := Flushed(s.snd, s.ctl.cwnd, time),
         data := s.data + OnWire(s.snd, FlushSends(s.snd, s.ctl.cwnd, time)))
    case Timeout(time) =>
      if Timer(s.snd, s.ctl, time).Resent? then
        s.(snd := Retried(s.snd, time), ctl := OnLose(s.ctl),
           data := s.data + OnWire(s.snd, [Stamp(s.snd.slots[0].value, time)]))
      else s
    case ArriveSync(m) =>
      s.(acks := s.acks + {m.n})
    case ArriveData(m, allocOk) =>
      var r := Take(s.rcv, m.pack, allocOk);
      s.(rcv := r.win, delivered := s.delivered + r.delivered, acks := if r.acked then s.acks + {m.n} else s.acks)
    case ArriveAck(n, now) =>
      var h := Held(s.snd, Wire(n));
      if h.None? then s
      else
        var w := Acknowledge(s.snd, Wire(n));
        var ctl := OnSended(s.ctl, h.value, now);
        s.(snd := Flushed(w, ctl.cwnd, now), ctl := ctl,
           data := s.data + OnWire(w, FlushSends(w, ctl.cwnd, now)))
    case LoseData(m) => s.(data := s.data - {m})
    case LoseAck(n) => s.(acks := s.acks - {n})
  }

  // ---- the invariant ----

  /** Packet n is held by the receiver or was handed to the application. */
  ghost predicate Got(s: State, n: nat) {
    n < s.rcv.base || (n - s.rcv.base < |s.rcv.held| && s.rcv.held[n - s.rcv.base].Some?)
  }

  ghost predicate SenderOk(queue: seq<seq<u8>>, w: SendWin) {
    && w.Valid()
    && w.base + |w.slots| == |queue|
    && (forall i :: 0 <= i < |w.slots| && w.slots[i].Some? ==> w.slots[i].value.data == queue[w.base + i])
    && (forall i :: 0 <= i < w.sent && w.slots[i].Some? ==> w.slots[i].value.time > 0)
  }

  ghost predicate ReceiverOk(queue: seq<seq<u8>>, w: RecvWin) {
    && w.Valid()
    && 1 <= w.base
    && (w.base <= |queue| || w.base == 1)
    && (forall i :: 0 <= i < WIN_SIZE && w.held[i].Some? ==>
          w.base + i < |queue| && w.held[i].value.data == queue[w.base + i])
  }

  ghost predicate WireOk(queue: seq<seq<u8>>, data: set<Msg>) {
    forall m <- data :: m.n < |queue| && m.pack.sequence == Wire(m.n) && m.pack.data == queue[m.n]
  }

  /** Whatever the sender no longer keeps, the receiver has. */
  ghost predicate FreedIsGot(s: State) {
    && (forall n: nat :: n < s.snd.base ==> Got(s, n))
    && (forall i: nat :: i < |s.snd.slots| && s.snd.slots[i].None? ==> Got(s, s.snd.base + i))
  }

  ghost predicate AckedIsGot(s: State) {
    forall n <- s.acks :: n < |s.queue| && Got(s, n)
  }

  /** Everything before n in the queue, without the handshake. */
  function Prefix(queue: seq<seq<u8>>, n: nat): seq<seq<u8>> {
    if 1 <= n <= |queue| then queue[1..n] else []
  }

  ghost predicate Inv(s: State) {
    && SenderOk(s.queue, s.snd)
    && ReceiverOk(s.queue, s.rcv)
    && WireOk(s.queue, s.data)
    && FreedIsGot(s)
    && AckedIsGot(s)
    && s.delivered == Prefix(s.queue, s.rcv.base)
    && 1 <= s.ctl.cwnd <= CWND_MAX
  }

  // ---- consequences of the invariant ----

  /** The receiver's base never trails the sender's. */
  lemma BaseNeverTrails(s: State)
    requires Inv(s)
    ensures s.snd.base <= s.rcv.base
    ensures |s.queue| <= s.rcv.base + WIN_SIZE
  {
    assert !Got(s, s.rcv.base);
  }

  /** Once the sender has nothing outstanding, everything submitted has been delivered. */
  lemma DrainedMeansDelivered(s: State)
    requires Inv(s) && s.snd.slots == [] && s.queue != []
    ensures s.delivered == s.queue[1..]
  {
    BaseNeverTrails(s);
  }

  /** On the wire numbers of fresh data packets, the 16-bit window test is exact. */
  lemma FreshDataIsClassified(s: State, m: Msg)
    requires Inv(s) && m in s.data && FreshData(s, m)
    ensures var d := Ahead(s.rcv.base, m.pack.sequence);
            if m.n < s.rcv.base then d >= WIN_SIZE else d == m.n - s.rcv.base && d < WIN_SIZE
  {
    BaseNeverTrails(s);
    var k: int := m.n - s.rcv.base;
    assert -(SEQ_MOD - WIN_SIZE) <= k < WIN_SIZE;
    AheadOfWire(s.rcv.base, m.n);
  }

  lemma AheadOfWire(base: nat, n: nat)
    ensures Ahead(base, Wire(n)) == (n - base) % SEQ_MOD
  {
    assert n - base == Wire(n) - base + SEQ_MOD * (n / SEQ_MOD);
  }

  /** A fresh acknowledgement matches a slot only if it is for that very packet. */
  lemma FreshAckIsExact(s: State, n: nat)
    requires Inv(s) && n in s.acks && FreshAck(s, n) && Held(s.snd, Wire(n)).Some?
    ensures n == s.snd.base + Ahead(s.snd.base, Wire(n)) && Ahead(s.snd.base, Wire(n)) < |s.snd.slots|
  {
    AheadOfWire(s.snd.base, n);
  }

  /** How old is too old, for data: a packet already delivered is taken for a new one exactly when its age, modulo
      2^16, is zero or above 65536 - 64, and the slot it aliases is free. So the bound in FreshData is the weakest. */
  lemma StaleDataMisreadIff(w: RecvWin, n: nat, pack: Pack)
    requires w.Valid() && n < w.base && pack.sequence == Wire(n)
    ensures var age := (w.base - n) % SEQ_MOD;
            Take(w, pack, true) != Received(w, [], true)
            <==> (age == 0 || (age > SEQ_MOD - WIN_SIZE && w.held[SEQ_MOD - age].None?))
  {
    AheadOfWire(w.base, n);
    var age := (w.base - n) % SEQ_MOD;
    assert Ahead(w.base, pack.sequence) == if age == 0 then 0 else SEQ_MOD - age;
  }

  /** And for acknowledgements: one for an already released packet frees another packet exactly when it aliases an
      occupied slot. */
  lemma StaleAckMisreadIff(w: SendWin, n: nat)
    requires w.Valid() && n < w.base
    ensures Held(w, Wire(n)).Some? <==>
            exists i :: 0 <= i < |w.slots| && w.slots[i].Some? && (w.base + i - n) % SEQ_MOD == 0
  {
    AheadOfWire(w.base, n);
    var d := Ahead(w.base, Wire(n));
    assert (w.base + d - n) % SEQ_MOD == 0;
    if i :| 0 <= i < |w.slots| && w.slots[i].Some? && (w.base + i - n) % SEQ_MOD == 0 {
      AliasIs(w.base, n, i);
    }
  }

  lemma AliasIs(base: nat, n: nat, i: nat)
    requires i < SEQ_MOD && (base + i - n) % SEQ_MOD == 0
    ensures Ahead(base, Wire(n)) == i
  {
    AheadOfWire(base, n);
    assert (n - base) % SEQ_MOD == i;
    hide Ahead, Wire;
  }

  // ---- every step keeps the invariant ----

  lemma GotMonotone(s: State, t: State)
    requires forall n: nat :: Got(s, n) ==> Got(t, n)
    requires FreedIsGot(s) && t.snd == s.snd
    ensures FreedIsGot(t)
  {
  }

  lemma OnWireOk(queue: seq<seq<u8>>, w: SendWin, sends: seq<Pack>)
    requires SenderOk(queue, w)
    requires forall p <- sends :: exists i :: 0 <= i < |w.slots| && w.slots[i].Some? &&
                                             p.sequence == w.slots[i].value.sequence && p.data == w.slots[i].value.data
    ensures WireOk(queue, OnWire(w, sends))
  {
    forall m | m in OnWire(w, sends)
      ensures m.n < |queue| && m.pack.sequence == Wire(m.n) && m.pack.data == queue[m.n]
    {
      var i :| 0 <= i < |w.slots| && w.slots[i].Some? &&
               m.pack.sequence == w.slots[i].value.sequence && m.pack.data == w.slots[i].value.data;
      WireFacts(w.base, i);
    }
  }

  lemma {:induction false} SendsComeFromSlots(s: Slots, lo: nat, hi: nat, time: nat)
    requires hi <= |s|
    ensures forall p <- Sends(s, lo, hi, time) :: exists i :: lo <= i < hi && s[i].Some? && p == Stamp(s[i].value, time)
    decreases hi
  {
    if lo < hi {
      SendsComeFromSlots(s, lo, hi - 1, time);
    }
  }

  lemma FlushKeepsSender(queue: seq<seq<u8>>, w: SendWin, cwnd: nat, time: nat)
    requires SenderOk(queue, w) && time > 0
    ensures SenderOk(queue, Flushed(w, cwnd, time))
    ensures WireOk(queue, OnWire(w, FlushSends(w, cwnd, time)))
    ensures var f := Flushed(w, cwnd, time); f.base == w.base && |f.slots| == |w.slots|
    ensures forall i :: 0 <= i < |w.slots| ==> (Flushed(w, cwnd, time).slots[i].None? <==> w.slots[i].None?)
  {
    hide Wire, Ahead;
    FlushedValid(w, cwnd, time);
    SendsComeFromSlots(w.slots, w.sent, Limit(w, cwnd), time);
    var sends := FlushSends(w, cwnd, time);
    forall p | p in sends
      ensures exists i :: 0 <= i < |w.slots| && w.slots[i].Some? &&
                          p.sequence == w.slots[i].value.sequence && p.data == w.slots[i].value.data
    {
      var i :| w.sent <= i < Limit(w, cwnd) && w.slots[i].Some? && p == Stamp(w.slots[i].value, time);
    }
    OnWireOk(queue, w, sends);
  }

  lemma SubmitSender(s: State, payload: seq<u8>)
    requires SenderOk(s.queue, s.snd) && |s.snd.slots| < WIN_SIZE
    ensures SenderOk(s.queue + [payload], Enqueued(s.snd, Pack(0, payload, 0, 0)))
  {
    hide Ahead;
  }

  lemma QueueGrows(s: State, payload: seq<u8>)
    requires ReceiverOk(s.queue, s.rcv) && WireOk(s.queue, s.data)
    ensures ReceiverOk(s.queue + [payload], s.rcv) && WireOk(s.queue + [payload], s.data)
    ensures Prefix(s.queue + [payload], s.rcv.base) == Prefix(s.queue, s.rcv.base)
  {
    hide Wire;
  }

  lemma SubmitStep(s: State, payload: seq<u8>)
    requires Inv(s) && |s.snd.slots| < WIN_SIZE
    ensures Inv(Apply(s, Submit(payload)))
  {
    hide Wire, Ahead;
    BaseNeverTrails(s);
    var t := Apply(s, Submit(payload));
    SubmitSender(s, payload);
    QueueGrows(s, payload);
    assert forall i: nat :: i < |t.snd.slots| && t.snd.slots[i].None? ==> i < |s.snd.slots|;
    assert forall n: nat :: Got(s, n) == Got(t, n);
    hide SenderOk, ReceiverOk, WireOk, Prefix, Got;
  }

  lemma TransmitStep(s: State, time: nat)
    requires Inv(s) && time > 0
    ensures Inv(Apply(s, Transmit(time)))
  {
    hide Wire, Ahead, Flushed, FlushSends, OnWire;
    FlushKeepsSender(s.queue, s.snd, s.ctl.cwnd, time);
    assert forall n: nat :: Got(Apply(s, Transmit(time)), n) <==> Got(s, n);
  }

  lemma TimeoutStep(s: State, time: nat)
    requires Inv(s) && time > 0
    ensures Inv(Apply(s, Timeout(time)))
  {
    hide Wire, Ahead, OnWire, Prefix;
    if Timer(s.snd, s.ctl, time).Resent? {
      OnWireOk(s.queue, s.snd, [Stamp(s.snd.slots[0].value, time)]);
      assert forall n: nat :: Got(Apply(s, Timeout(time)), n) <==> Got(s, n);
      hide Got;
    }
  }

  /** A delivery hands over exactly the queue entries the base moves past. */
  lemma AdvanceDelivers(queue: seq<seq<u8>>, w: RecvWin, data: seq<u8>)
    requires ReceiverOk(queue, w) && w.base < |queue| && data == queue[w.base]
    ensures var r := Advance(w, data); r.win.base <= |queue| && r.delivered == queue[w.base..r.win.base]
  {
    hide Wire, Ahead;
    var n := LeadingSome(w.held[1..]);
    var r := Advance(w, data);
    assert forall i :: 0 <= i < n ==> w.held[1 + i] == w.held[1..][i];
    if n > 0 {
      assert w.held[1 + (n - 1)].Some?;
    }
    forall i | 0 <= i < n + 1
      ensures r.delivered[i] == queue[w.base + i]
    {
      if i > 0 {
        assert r.delivered[i] == w.held[1..1 + n][i - 1].value.data == w.held[i].value.data;
      }
    }
  }

  lemma AdvanceKeepsReceiver(queue: seq<seq<u8>>, w: RecvWin, data: seq<u8>)
    requires ReceiverOk(queue, w) && Advance(w, data).win.base <= |queue|
    ensures ReceiverOk(queue, Advance(w, data).win)
    ensures var v := Advance(w, data).win;
            forall i :: 0 <= i < WIN_SIZE && w.base + i >= v.base ==> w.held[i] == v.held[w.base + i - v.base]
  {
    hide Wire, Ahead;
    AdvanceValid(w, data);
    var k := 1 + LeadingSome(w.held[1..]);
    var v := Advance(w, data).win;
    assert forall i :: 0 <= i < WIN_SIZE - k ==> v.held[i] == w.held[k + i];
    assert forall i :: WIN_SIZE - k <= i < WIN_SIZE ==> v.held[i].None?;
  }

  lemma ArriveDataStep(s: State, m: Msg, allocOk: bool)
    requires Inv(s) && Enabled(s, ArriveData(m, allocOk))
    ensures Inv(Apply(s, ArriveData(m, allocOk)))
  {
    hide Wire, Ahead, Advance, Prefix;
    FreshDataIsClassified(s, m);
    var t := Apply(s, ArriveData(m, allocOk));
    var d := Ahead(s.rcv.base, m.pack.sequence);
    if d == 0 {
      AdvanceDelivers(s.queue, s.rcv, m.pack.data);
      AdvanceKeepsReceiver(s.queue, s.rcv, m.pack.data);
      AdvanceMoves(s.rcv, m.pack.data);
      PrefixExtends(s.queue, s.rcv.base, t.rcv.base);
      forall n: nat | Got(s, n)
        ensures Got(t, n)
      {
        if n >= t.rcv.base {
          assert t.rcv.held[n - t.rcv.base] == s.rcv.held[n - s.rcv.base];
        }
      }
    } else {
      assert forall n: nat :: Got(s, n) ==> Got(t, n);
    }
    assert t.acks != s.acks ==> Got(t, m.n);
    GotMonotone(s, t);
  }

  lemma AdvanceMoves(w: RecvWin, data: seq<u8>)
    requires w.Valid()
    ensures Advance(w, data).win.base > w.base && Advance(w, data).acked
  {
  }

  lemma PrefixExtends(queue: seq<seq<u8>>, i: nat, j: nat)
    requires 1 <= i <= j <= |queue|
    ensures Prefix(queue, i) + queue[i..j] == Prefix(queue, j)
  {
  }

  lemma ArriveAckStep(s: State, n: nat, now: nat)
    requires Inv(s) && Enabled(s, ArriveAck(n, now))
    ensures Inv(Apply(s, ArriveAck(n, now)))
  {
    hide Wire, Ahead, Flushed, FlushSends, OnWire, Acknowledge, Held, Estimate;
    var h := Held(s.snd, Wire(n));
    if h.Some? {
      FreshAckIsExact(s, n);
      var w := Acknowledge(s.snd, Wire(n));
      AcknowledgeOk(s, n);
      CwndStep(s.ctl, h.value, now);
      FlushKeepsSender(s.queue, w, OnSended(s.ctl, h.value, now).cwnd, now);
      var t := Apply(s, ArriveAck(n, now));
      assert forall k: nat :: Got(t, k) <==> Got(s.(snd := w), k);
    }
  }

  lemma CwndStep(c: Control, p: Pack, now: nat)
    requires 1 <= c.cwnd <= CWND_MAX
    ensures 1 <= OnSended(c, p, now).cwnd <= CWND_MAX
  {
  }

  lemma AcknowledgeOk(s: State, n: nat)
    requires Inv(s) && n in s.acks && Held(s.snd, Wire(n)).Some?
    requires n == s.snd.base + Ahead(s.snd.base, Wire(n)) && n - s.snd.base < |s.snd.slots|
    ensures var w := Acknowledge(s.snd, Wire(n)); SenderOk(s.queue, w) && FreedIsGot(s.(snd := w))
  {
    hide Wire, Ahead, LeadingNone, ReceiverOk, WireOk, Prefix, Slide;
    var c := s.snd.(slots := s.snd.slots[n - s.snd.base := None]);
    assert Acknowledge(s.snd, Wire(n)) == Slide(c, LeadingNone(c.slots));
    hide Acknowledge, Held;
    SlideValid(c);
    hide Got;
    SlideOk(s, c, LeadingNone(c.slots));
  }

  lemma SlideOk(s: State, c: SendWin, k: nat)
    requires k <= |c.slots| && Slide(c, k).Valid() && c.base + |c.slots| == |s.queue|
    requires forall i :: 0 <= i < |c.slots| && c.slots[i].Some? ==> c.slots[i].value.data == s.queue[c.base + i]
    requires forall i :: 0 <= i < c.sent && i < |c.slots| && c.slots[i].Some? ==> c.slots[i].value.time > 0
    requires forall i :: 0 <= i < k ==> c.slots[i].None?
    requires forall n: nat :: n < c.base ==> Got(s, n)
    requires forall i: nat :: i < |c.slots| && c.slots[i].None? ==> Got(s, c.base + i)
    ensures SenderOk(s.queue, Slide(c, k)) && FreedIsGot(s.(snd := Slide(c, k)))
  {
    hide Wire, Ahead;
    var w := Slide(c, k);
    assert forall i :: 0 <= i < |w.slots| ==> w.slots[i] == c.slots[k + i];
    var t := s.(snd := w);
    assert forall n: nat :: Got(s, n) <==> Got(t, n);
    forall j: nat | j < w.base
      ensures Got(t, j)
    {
      if j >= c.base {
        var i := j - c.base;
        assert c.slots[i].None? && Got(s, c.base + i);
      }
    }
    forall i: nat | i < |w.slots| && w.slots[i].None?
      ensures Got(t, w.base + i)
    {
      assert Got(s, c.base + (k + i));
    }
  }

  lemma StepKeepsInv(s: State, e: Step)
    requires Inv(s) && Enabled(s, e)
    ensures Inv(Apply(s, e))
  {
    hide Wire, Ahead, Flushed, FlushSends, OnWire, Acknowledge, Held, Take, Retried, Timer;
    match e
    case Submit(payload) => SubmitStep(s, payload);
    case Transmit(time) => TransmitStep(s, time);
    case Timeout(time) => TimeoutStep(s, time);
    case ArriveSync(m) => assert forall n: nat :: Got(Apply(s, e), n) <==> Got(s, n);
    case ArriveData(m, allocOk) => ArriveDataStep(s, m, allocOk);
    case ArriveAck(n, now) => ArriveAckStep(s, n, now);
    case LoseData(m) => assert forall n: nat :: Got(Apply(s, e), n) <==> Got(s, n);
    case LoseAck(n) => assert forall n: nat :: Got(Apply(s, e), n) <==> Got(s, n);
  }

  // ---- no dead end ----

  ghost predicate Path(s: State, steps: seq<Step>, t: State)
    decreases |steps|
  {
    if steps == [] then s == t
    else s.rcv.Valid() && Enabled(s, steps[0]) && Path(Apply(s, steps[0]), steps[1..], t)
  }

  /** A step that puts the first outstanding packet on the wire: the first transmission, or the timer far in the
      future. */
  function Offer(w: SendWin, c: Control): Step
    requires w.slots != [] && w.slots[0].Some?
  {
    if w.sent == 0 then Transmit(1) else Timeout(w.slots[0].value.time + c.rto + 1)
  }

  lemma OfferReachesWire(s: State)
    requires Inv(s) && s.snd.slots != [] && s.snd.slots[0].value.times <= 10
    ensures Enabled(s, Offer(s.snd, s.ctl))
    ensures var t := Apply(s, Offer(s.snd, s.ctl));
            && t.snd.base == s.snd.base && t.rcv == s.rcv && t.snd.slots != []
            && exists p :: Msg(s.snd.base, p) in t.data
  {
    hide Wire, Ahead, Estimate;
    var t := Apply(s, Offer(s.snd, s.ctl));
    var p := s.snd.slots[0].value;
    WireFacts(s.snd.base, 0);
    if s.snd.sent == 0 {
      var n := Limit(s.snd, s.ctl.cwnd);
      FirstIsSent(s.snd.slots, n, 1);
      assert Msg(s.snd.base, Stamp(p, 1)) in OnWire(s.snd, FlushSends(s.snd, s.ctl.cwnd, 1));
    } else {
      var time := p.time + s.ctl.rto + 1;
      assert Stamp(p, time) in [Stamp(p, time)];
      assert Msg(s.snd.base, Stamp(p, time)) in OnWire(s.snd, [Stamp(p, time)]);
    }
  }

  lemma {:induction false} FirstIsSent(s: Slots, hi: nat, time: nat)
    requires 0 < hi <= |s| && s[0].Some?
    ensures Stamp(s[0].value, time) in Sends(s, 0, hi, time)
  {
    if hi > 1 {
      FirstIsSent(s, hi - 1, time);
    }
  }

  /** From every reachable state with a packet outstanding that has not used up its eleven transmissions, three steps
      without loss release it: the window never locks up, whatever was lost before. */
  lemma NoDeadEnd(s: State) returns (steps: seq<Step>, t: State)
    requires Inv(s) && s.snd.slots != [] && s.snd.slots[0].value.times <= 10
    ensures |steps| == 3 && Path(s, steps, t) && Inv(t) && t.snd.base > s.snd.base
  {
    hide Wire, Ahead, Flushed, FlushSends, OnWire, Estimate, Take, Acknowledge, Held, Retried, Timer;
    var first := Offer(s.snd, s.ctl);
    OfferReachesWire(s);
    var a := Apply(s, first);
    StepKeepsInv(s, first);
    var p :| Msg(s.snd.base, p) in a.data;
    var m := Msg(s.snd.base, p);
    BaseNeverTrails(a);
    var second := if m.n == 0 then ArriveSync(m) else ArriveData(m, true);
    var b := Apply(a, second);
    StepKeepsInv(a, second);
    assert m.n in b.acks && b.snd == a.snd by {
      AlwaysAcked(a.rcv, p);
    }
    var third := ArriveAck(m.n, 1);
    t := Apply(b, third);
    StepKeepsInv(b, third);
    FirstAckSlides(b.snd);
    steps := [first, second, third];
    assert Path(t, [], t) && steps[3..] == [];
    assert Path(b, [third], t) && steps[2..] == [third];
    assert Path(a, [second, third], t) by { assert [second, third][1..] == [third]; }
    assert steps[1..] == [second, third];
    FlushedBase(Acknowledge(b.snd, Wire(m.n)), t.ctl.cwnd, 1);
  }

  lemma AlwaysAcked(w: RecvWin, pack: Pack)
    requires w.Valid()
    ensures Take(w, pack, true).acked
  {
  }

  lemma FlushedBase(w: SendWin, cwnd: nat, time: nat)
    ensures Flushed(w, cwnd, time).base == w.base
  {
  }

  lemma FirstAckSlides(w: SendWin)
    requires w.Valid() && w.slots != []
    ensures Held(w, Wire(w.base)).Some? && Acknowledge(w, Wire(w.base)).base > w.base
  {
    WireFacts(w.base, 0);
  }

  // ---- whole runs ----

  /** The states reached from INIT by a list of steps, each enabled when it is taken. */
  ghost predicate Run(states: seq<State>, steps: seq<Step>) {
    && |states| == |steps| + 1
    && states[0] == INIT
    && forall i :: 0 <= i < |steps| ==>
         states[i].rcv.Valid() && Enabled(states[i], steps[i]) && states[i + 1] == Apply(states[i], steps[i])
  }

  lemma {:induction false} RunKeepsInv(states: seq<State>, steps: seq<Step>, k: nat)
    requires Run(states, steps) && k < |states|
    ensures Inv(states[k])
  {
    if k == 0 {
    } else {
      RunKeepsInv(states, steps, k - 1);
      StepKeepsInv(states[k - 1], steps[k - 1]);
    }
  }

  /** Exactly once and in order: in every state of every run, what was handed to the application is a prefix of what
      was submitted, ending just before the receiver's base, and the sender has released nothing beyond it. */
  lemma ExactlyOnceInOrder(states: seq<State>, steps: seq<Step>, k: nat)
    requires Run(states, steps) && k < |states|
    ensures var s := states[k];
            && s.delivered == Prefix(s.queue, s.rcv.base)
            && s.snd.base <= s.rcv.base
            && (s.queue != [] ==> s.rcv.base <= |s.queue| && |s.delivered| == s.rcv.base - 1)
            && (s.queue != [] && s.snd.slots == [] ==> s.delivered == s.queue[1..])
  {
    RunKeepsInv(states, steps, k);
    BaseNeverTrails(states[k]);
  }

  /** Nothing is ever taken back: what has been delivered stays delivered. */
  lemma {:induction false} DeliveryOnlyGrows(states: seq<State>, steps: seq<Step>, i: nat, j: nat)
    requires Run(states, steps) && i <= j < |states|
    ensures states[i].delivered <= states[j].delivered
  {
    if i < j {
      DeliveryOnlyGrows(states, steps, i, j - 1);
    }
  }
}
