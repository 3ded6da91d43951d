/** The send and receive windows of a link (cpp/Udp.cpp): a 64-slot ring indexed by a 16-bit sequence number,
    against plain sequences indexed from the window base, with the base itself unbounded. */
module UdpWindow {
  import opened Arithmetic
  import opened Bytes
  import opened Wrappers
  import opened UdpLinkControl

  type Slots = seq<Option<Pack>>

  /** How far a 16-bit sequence number lies ahead of an unbounded base, modulo 2^16. */
  function Ahead(base: nat, sequence: u16): nat { (sequence - base) % SEQ_MOD }

  // ---- the two windows on plain sequences ----

  /** slots[i] is the packet with number base + i, None once it is acknowledged; packets from sent on have not been
      transmitted since the last go-back. */
  datatype SendWin = SendWin(base: nat, slots: Slots, sent: nat)
  {
    ghost predicate Valid() {
      && |slots| <= WIN_SIZE
      && sent <= |slots|
      && (slots != [] ==> slots[0].Some?)
      && Numbered(this)
    }
  }

  ghost predicate Numbered(w: SendWin) {
    forall i :: 0 <= i < |w.slots| && w.slots[i].Some? ==> w.slots[i].value.sequence == Wire(w.base + i)
  }

  /** held[i] is the packet with number base + i that arrived early; base itself is what comes next. */
  datatype RecvWin = RecvWin(base: nat, held: Slots)
  {
    ghost predicate Valid() {
      |held| == WIN_SIZE && held[0].None?
    }
  }

  function Enqueued(w: SendWin, pack: Pack): SendWin {
    w.(slots := w.slots + [Some(pack.(sequence := Wire(w.base + |w.slots|)))])
  }

  function LeadingNone(s: Slots): (n: nat)
    ensures n <= |s|
    ensures forall i :: 0 <= i < n ==> s[i].None?
    ensures n < |s| ==> s[n].Some?
  {
    if s == [] || s[0].Some? then 0 else 1 + LeadingNone(s[1..])
  }

  function LeadingSome(s: Slots): (n: nat)
    ensures n <= |s|
    ensures forall i :: 0 <= i < n ==> s[i].Some?
    ensures n < |s| ==> s[n].None?
  {
    if s == [] || s[0].None? then 0 else 1 + LeadingSome(s[1..])
  }

  /** Release n leading slots. */
  function Slide(w: SendWin, n: nat): SendWin
    requires n <= |w.slots|
  {
    SendWin(w.base + n, w.slots[n..], if w.sent > n then w.sent - n else 0)
  }

  lemma SlideValid(w: SendWin)
    requires Numbered(w) && w.sent <= |w.slots| <= WIN_SIZE
    ensures Slide(w, LeadingNone(w.slots)).Valid()
  {
    hide Wire;
    var n := LeadingNone(w.slots);
    forall i | 0 <= i < |w.slots[n..]| && w.slots[n..][i].Some?
      ensures w.slots[n..][i].value.sequence == Wire(w.base + n + i)
    {
      assert w.slots[n + i].value.sequence == Wire(w.base + (n + i));
    }
  }

  function Stamped(s: Slots, lo: nat, hi: nat, time: nat): Slots {
    seq(|s|, i requires 0 <= i < |s| => if lo <= i < hi && s[i].Some? then Some(Stamp(s[i].value, time)) else s[i])
  }

  /** The packets a flush of slots [lo, hi) puts on the wire, in order. */
  function Sends(s: Slots, lo: nat, hi: nat, time: nat): seq<Pack>
    requires hi <= |s|
    decreases hi
  {
    if hi <= lo then []
    else Sends(s, lo, hi - 1, time) + if s[hi - 1].Some? then [Stamp(s[hi - 1].value, time)] else []
  }

  lemma SendsNone(s: Slots, lo: nat, hi: nat, time: nat)
    requires hi <= |s|
    ensures hi <= lo ==> Sends(s, lo, hi, time) == []
  {
  }

  lemma SendsSnoc(s: Slots, lo: nat, hi: nat, time: nat)
    requires lo <= hi < |s|
    ensures Sends(s, lo, hi + 1, time) ==
            Sends(s, lo, hi, time) + if s[hi].Some? then [Stamp(s[hi].value, time)] else []
  {
  }

  lemma StampedSnoc(s: Slots, lo: nat, hi: nat, time: nat)
    requires lo <= hi < |s|
    ensures |Stamped(s, lo, hi, time)| == |s| && Stamped(s, lo, hi, time)[hi] == s[hi]
    ensures Stamped(s, lo, hi + 1, time) ==
            if s[hi].Some? then Stamped(s, lo, hi, time)[hi := Some(Stamp(s[hi].value, time))]
            else Stamped(s, lo, hi, time)
  {
  }

  lemma StampedNone(s: Slots, lo: nat, time: nat)
    ensures Stamped(s, lo, lo, time) == s
  {
  }

  function Limit(w: SendWin, cwnd: nat): nat { if cwnd < |w.slots| then cwnd else |w.slots| }

  function Flushed(w: SendWin, cwnd: nat, time: nat): SendWin {
    var n := Limit(w, cwnd);
    if w.sent > n then w else SendWin(w.base, Stamped(w.slots, w.sent, n, time), n)
  }

  lemma FlushedValid(w: SendWin, cwnd: nat, time: nat)
    requires w.Valid()
    ensures Flushed(w, cwnd, time).Valid()
  {
  }

  function FlushSends(w: SendWin, cwnd: nat, time: nat): seq<Pack> {
    Sends(w.slots, w.sent, Limit(w, cwnd), time)
  }

  function Held(w: SendWin, sequence: u16): Option<Pack> {
    var d := Ahead(w.base, sequence);
    if d < |w.slots| then w.slots[d] else None
  }

  /** The window after the acknowledgement of a held packet, before the flush that follows. */
  function Acknowledge(w: SendWin, sequence: u16): SendWin
    requires Held(w, sequence).Some?
  {
    var cleared := w.(slots := w.slots[Ahead(w.base, sequence) := None]);
    Slide(cleared, LeadingNone(cleared.slots))
  }

  datatype TimerResult = Idle | Failed | Later(at: nat) | Resent(next: nat)

  function Timer(w: SendWin, c: Control, time: nat): TimerResult {
    if w.slots == [] || w.slots[0].None? then Idle
    else if w.slots[0].value.times > 10 then Failed
    else if w.slots[0].value.time == 0 then Idle
    else if time < w.slots[0].value.time + c.rto then Later(w.slots[0].value.time + c.rto)
    else Resent(time + OnLose(c).rto)
  }

  function Retried(w: SendWin, time: nat): SendWin
    requires w.slots != [] && w.slots[0].Some?
  {
    SendWin(w.base, w.slots[0 := Some(Stamp(w.slots[0].value, time))], 1)
  }

  datatype Received = Received(win: RecvWin, delivered: seq<seq<u8>>, acked: bool)

  ghost predicate AllHeld(s: Slots) { forall i :: 0 <= i < |s| ==> s[i].Some? }

  function Payloads(s: Slots): seq<seq<u8>>
    requires forall i :: 0 <= i < |s| ==> s[i].Some?
  {
    seq(|s|, i requires 0 <= i < |s| => s[i].value.data)
  }

  function Empty(n: nat): Slots { seq(n, _ => None) }

  /** Deliver the packet at the base and every packet held right behind it. */
  function Advance(w: RecvWin, data: seq<u8>): Received
    requires w.Valid()
  {
    var n := LeadingSome(w.held[1..]);
    Received(RecvWin(w.base + 1 + n, w.held[1 + n..] + Empty(1 + n)), [data] + Payloads(w.held[1..1 + n]), true)
  }

  /** A delivery leaves the new base slot empty. */
  lemma AdvanceValid(w: RecvWin, data: seq<u8>)
    requires w.Valid()
    ensures Advance(w, data).win.Valid()
  {
    var n := LeadingSome(w.held[1..]);
    if 1 + n < WIN_SIZE {
      assert w.held[1..][n] == w.held[1 + n];
    }
  }

  function Take(w: RecvWin, pack: Pack, allocOk: bool): Received
    requires w.Valid()
  {
    var d := Ahead(w.base, pack.sequence);
    if d >= WIN_SIZE || w.held[d].Some? then Received(w, [], true)
    else if d > 0 then
      if allocOk then Received(w.(held := w.held[d := Some(pack)]), [], true) else Received(w, [], false)
    else Advance(w, pack.data)
  }

  // ---- the ring ----

  function SlotOf(base: nat, i: nat): nat { (base + i) % WIN_SIZE }

  lemma SlotFacts(base: nat, i: nat, j: nat)
    requires i < WIN_SIZE && j < WIN_SIZE
    ensures SlotOf(base, i) < WIN_SIZE
    ensures SlotOf(base, i) == SlotOf(base, j) ==> i == j
  {
  }

  lemma SlotStep(base: nat, i: nat)
    requires i < WIN_SIZE
    ensures SlotOf(base + 1, i) == SlotOf(base, if i < WIN_SIZE - 1 then i + 1 else 0)
  {
  }

  /** A 16-bit sequence number names the same slot as the unbounded number it stands for, as 64 divides 2^16. */
  lemma SlotIndex(base: nat, sequence: u16)
    ensures var d := Ahead(base, sequence);
            && d < SEQ_MOD && Wire(base + d) == sequence
            && d % WIN_SIZE < WIN_SIZE && SlotOf(base, d % WIN_SIZE) == sequence % WIN_SIZE
  {
    var d := Ahead(base, sequence);
    var q := 0 - (sequence - base) / SEQ_MOD;
    assert base + d == SEQ_MOD * q + sequence;
    Remainder(base + d, SEQ_MOD, q, sequence);
    WireSlot(base + d);
    SlotRepeats(base, d);
    hide Ahead, SlotOf;
  }

  lemma SlotRepeats(base: nat, d: nat)
    ensures SlotOf(base, d % WIN_SIZE) == (base + d) % WIN_SIZE
  {
    var x := base + d;
    DivMod(x, WIN_SIZE);
    DivMod(d, WIN_SIZE);
    Remainder(base + d % WIN_SIZE, WIN_SIZE, x / WIN_SIZE - d / WIN_SIZE, x % WIN_SIZE);
  }

  lemma WireFacts(base: nat, i: nat)
    requires i < SEQ_MOD
    ensures (Wire(base) + i) % 65536 == Wire(base + i)
    ensures Ahead(base, Wire(base + i)) == i
    ensures Wire(base + i) % WIN_SIZE == SlotOf(base, i)
  {
    WireAdds(base, i);
    AheadOf(base, i);
    WireSlot(base + i);
    hide Wire, Ahead;
  }

  lemma WireAdds(base: nat, i: nat)
    ensures (Wire(base) + i) % 65536 == Wire(base + i)
  {
    var q := base / 65536;
    assert base == 65536 * q + base % 65536;
  }

  lemma AheadOf(base: nat, i: nat)
    requires i < SEQ_MOD
    ensures Ahead(base, Wire(base + i)) == i
  {
    var q := (base + i) / 65536;
    assert base + i == 65536 * q + Wire(base + i);
    assert Wire(base + i) - base == i - 65536 * q;
  }

  lemma WireSlot(n: nat)
    ensures Wire(n) % WIN_SIZE == n % WIN_SIZE
  {
    var q, w := n / 65536, Wire(n);
    assert n == 65536 * q + w && w == WIN_SIZE * (w / WIN_SIZE) + w % WIN_SIZE;
    hide Wire;
    Remainder(n, WIN_SIZE, 1024 * q + w / WIN_SIZE, w % WIN_SIZE);
  }

  lemma WireApart(base: nat, i: nat, j: nat)
    requires i < SEQ_MOD && j < SEQ_MOD && i != j
    ensures Wire(base + i) != Wire(base + j)
  {
  }

  /** Membership in [base, base + 64) by one wrapped end point, as the source compares. */
  lemma InvalidIsExact(base: nat, sequence: u16)
    ensures var start := Wire(base);
            var end := (start + WIN_SIZE) % 65536;
            (if start < end then sequence < start || sequence >= end else sequence < start && sequence >= end)
            <==> Ahead(base, sequence) >= WIN_SIZE
  {
  }

  /** The early exit of flush: taken exactly when the send position lies beyond the congestion limit. */
  lemma BeyondIsExact(base: nat, sq: u16, cwnd: nat)
    requires cwnd < WIN_SIZE && Ahead(base, sq) <= WIN_SIZE
    ensures var start := Wire(base);
            var limit := (start + cwnd) % 65536;
            (if limit < start then sq < start && sq > limit else sq < start || sq > limit)
            <==> Ahead(base, sq) > cwnd
  {
  }

  lemma AheadStep(base: nat, sq: u16)
    requires Ahead(base, sq) <= WIN_SIZE
    ensures Wire(base) == sq <==> Ahead(base, sq) == 0
    ensures Ahead(base, sq) > 0 ==> Ahead(base + 1, sq) == Ahead(base, sq) - 1
    ensures Ahead(base + 1, Wire(base + 1)) == 0 && (Wire(base) + 1) % 65536 == Wire(base + 1)
  {
    AheadOf(base + 1, 0);
    AheadOf(base, 0);
    WireAdds(base, 1);
    AheadIs(base, sq);
    hide Wire;
    if Ahead(base, sq) > 0 {
      AheadFalls(base, sq);
    }
    hide Ahead;
  }

  lemma AheadIs(base: nat, sq: u16)
    ensures Wire(base + Ahead(base, sq)) == sq
  {
    SlotIndex(base, sq);
  }

  lemma AheadFalls(base: nat, sq: u16)
    requires Ahead(base, sq) > 0
    ensures Ahead(base + 1, sq) == Ahead(base, sq) - 1
  {
    var d := Ahead(base, sq);
    AheadIs(base, sq);
    AheadOf(base + 1, d - 1);
    hide Wire;
  }

  lemma EmptyNone(n: nat)
    ensures |Empty(n)| == n && forall i :: 0 <= i < n ==> Empty(n)[i] == None
    ensures Empty(n + 1) == Empty(n) + [None] && Empty(1) == [None]
  {
  }

  lemma HeldShift(s: Slots, n: nat)
    requires n < |s|
    ensures var t := (s[n..] + Empty(n))[0 := None];
            t[1..] + [t[0]] == s[n + 1..] + Empty(n + 1)
  {
  }

  lemma OneLonger(s: Slots, i: nat)
    requires 1 + i < |s|
    ensures s[1..2 + i] == s[1..1 + i] + [s[1 + i]]
  {
  }

  class UdpWin {
    var mLength: u16
    var mSendSeq: u16
    var mSequence: u16
    const mPacks: array<Option<Pack>>
    ghost var base: nat  // mSequence without the wrap
    ghost var ring: Slots  // mPacks read from mSequence on

    ghost predicate RingOk()
      reads this, mPacks
    {
      && mPacks.Length == WIN_SIZE == |ring|
      && mSequence == Wire(base)
      && mLength <= WIN_SIZE
      && (forall i: nat {:trigger SlotOf(base, i)} :: i < WIN_SIZE ==>
            SlotOf(base, i) < WIN_SIZE && mPacks[SlotOf(base, i)] == ring[i])
    }

    ghost function SendView(): SendWin
      requires RingOk()
      reads this, mPacks
    {
      SendWin(base, ring[..mLength], Ahead(base, mSendSeq))
    }

    ghost predicate SendValid()
      reads this, mPacks
    {
      RingOk() && SendView().Valid() && forall i :: mLength <= i < WIN_SIZE ==> ring[i].None?
    }

    ghost function RecvView(): RecvWin
      requires RingOk()
      reads this, mPacks
    {
      RecvWin(base, ring)
    }

    ghost predicate RecvValid()
      reads this, mPacks
    {
      RingOk() && RecvView().Valid()
    }

    /** Store into the slot that holds offset i. */
    method Put(index: nat, v: Option<Pack>, ghost i: nat)
      requires RingOk() && i < WIN_SIZE && index == SlotOf(base, i) && index < WIN_SIZE
      modifies this`ring, mPacks
      ensures RingOk() && ring == old(ring)[i := v]
    {
      hide Wire, Ahead, SlotOf;
      mPacks[index] := v;
      ring := ring[i := v];
      forall j: nat | j < WIN_SIZE
        ensures SlotOf(base, j) < WIN_SIZE && mPacks[SlotOf(base, j)] == ring[j]
      {
        SlotFacts(base, i, j);
      }
    }

    /** Move the base past one slot. */
    method Step()
      requires RingOk()
      modifies this`ring, this`base, this`mSequence
      ensures RingOk() && base == old(base) + 1 && ring == old(ring)[1..] + [old(ring)[0]]
    {
      hide Wire, Ahead, SlotOf;
      WireFacts(base, 1);
      mSequence := (mSequence + 1) % 65536;
      ring := ring[1..] + [ring[0]];
      base := base + 1;
      forall i: nat | i < WIN_SIZE
        ensures SlotOf(base, i) < WIN_SIZE && mPacks[SlotOf(base, i)] == ring[i]
      {
        SlotStep(old(base), i);
      }
    }

    /** mSendSeq starts at zero, so only a window opened at zero is usable for sending. */
    constructor (sequence: u16)
      ensures RecvValid() && RecvView() == RecvWin(sequence, Empty(WIN_SIZE)) && fresh(mPacks)
      ensures sequence == 0 ==> SendValid() && SendView() == SendWin(0, [], 0)
    {
      mLength := 0;
      mSendSeq := 0;
      mSequence := sequence;
      mPacks := new Option<Pack>[WIN_SIZE];
      base := sequence;
      ring := Empty(WIN_SIZE);
      new;
      for i := 0 to WIN_SIZE
        invariant mPacks.Length == WIN_SIZE && fresh(mPacks)
        invariant mLength == 0 && mSendSeq == 0 && mSequence == sequence == base && ring == Empty(WIN_SIZE)
        invariant forall k :: 0 <= k < i ==> mPacks[k] == None
      {
        mPacks[i] := None;
      }
    }

    /** Membership is decided with one 16-bit end point and two comparisons that depend on whether it wrapped. */
    method Invalid(sequence: u16) returns (r: bool)
      requires RingOk()
      ensures r <==> Ahead(base, sequence) >= WIN_SIZE
    {
      InvalidIsExact(base, sequence);
      var end := (mSequence + WIN_SIZE) % 65536;
      if mSequence < end {
        r := sequence < mSequence || sequence >= end;
      } else {
        r := sequence < mSequence && sequence >= end;
      }
    }

    /** With nonblock; a blocking call is this call repeated until it succeeds. */
    method Enqueue(pack: Pack) returns (ok: bool)
      requires SendValid()
      modifies this, mPacks
      ensures SendValid()
      ensures ok == (|old(SendView()).slots| < WIN_SIZE)
      ensures SendView() == if ok then Enqueued(old(SendView()), pack) else old(SendView())
    {
      hide Wire, Ahead, SlotOf;
      if mLength < WIN_SIZE {
        var sequence := (mSequence + mLength) % 65536;
        var index := sequence % WIN_SIZE;
        WireFacts(base, mLength);
        SlotFacts(base, mLength, mLength);
        Put(index, Some(pack.(sequence := sequence)), mLength);
        mLength := mLength + 1;
        return true;
      }
      return false;
    }

    /** Sends are returned in the order they reach the socket. */
    method Flush(link: UdpLink, time: nat) returns (sends: seq<Pack>)
      requires SendValid()
      modifies this, mPacks
      ensures SendValid()
      ensures SendView() == Flushed(old(SendView()), link.mCwnd, time)
      ensures sends == FlushSends(old(SendView()), link.mCwnd, time)
      ensures base == old(base)
    {
      hide Wire, Ahead, SlotOf, Sends, Stamped;
      ghost var w := SendView();
      var cwnd := link.mCwnd;
      var sq := mSendSeq;
      sends := [];
      SendsNone(w.slots, w.sent, Limit(w, link.mCwnd), time);
      if cwnd < mLength {
        BeyondIsExact(base, sq, cwnd);
        var sequence := (mSequence + cwnd) % 65536;
        if sequence < mSequence {
          if sq < mSequence && sq > sequence {
            return;
          }
        } else {
          if sq < mSequence || sq > sequence {
            return;
          }
        }
      } else {
        cwnd := mLength;
      }
      assert w.sent <= cwnd == Limit(w, link.mCwnd);
      sq, sends := SendRange(sq, cwnd, time, w);
      mSendSeq := sq;
      WireFacts(base, cwnd);
      FlushedValid(w, link.mCwnd, time);
    }

    /** The loop of flush: transmit the occupied slots from sq up to mSequence + cwnd, across the 16-bit wrap. */
    method SendRange(from: u16, cwnd: u16, time: nat, ghost w: SendWin) returns (sq: u16, sends: seq<Pack>)
      requires SendValid() && SendView() == w && from == mSendSeq && w.sent <= cwnd <= mLength
      modifies this`ring, mPacks
      ensures RingOk() && sq == Wire(base + cwnd)
      ensures ring[..mLength] == Stamped(w.slots, w.sent, cwnd, time)
      ensures forall k :: mLength <= k < WIN_SIZE ==> ring[k] == old(ring)[k]
      ensures sends == Sends(w.slots, w.sent, cwnd, time)
    {
      hide Wire, Ahead, SlotOf, Sends, Stamped, SendWin.Valid;
      sq, sends := from, [];
      var end := (mSequence + cwnd) % 65536;
      ghost var i := w.sent;
      SlotIndex(base, sq);
      WireFacts(base, cwnd);
      SendsNone(w.slots, w.sent, w.sent, time);
      StampedNone(w.slots, w.sent, time);
      while sq != end
        invariant RingOk() && end == Wire(base + cwnd)
        invariant w.sent <= i <= cwnd && sq == Wire(base + i)
        invariant ring[..mLength] == Stamped(w.slots, w.sent, i, time)
        invariant forall k :: mLength <= k < WIN_SIZE ==> ring[k] == old(ring)[k]
        invariant sends == Sends(w.slots, w.sent, i, time)
        decreases cwnd - i
      {
        assert i < cwnd;
        var index := sq % WIN_SIZE;
        WireFacts(base, i);
        SlotFacts(base, i, i);
        StampedSnoc(w.slots, w.sent, i, time);
        SendsSnoc(w.slots, w.sent, i, time);
        assert ring[i] == ring[..mLength][i] == w.slots[i];
        if mPacks[index].Some? {
          var pack := Stamp(mPacks[index].value, time);
          Put(index, Some(pack), i);
          assert ring[..mLength] == Stamped(w.slots, w.sent, i, time)[i := Some(pack)];
          sends := sends + [pack];
        }
        sq := (sq + 1) % 65536;
        WireFacts(base + i, 1);
        i := i + 1;
      }
      if i != cwnd {
        WireApart(base, i, cwnd);
      }
    }

    method Confirm(link: UdpLink, sequence: u16, time: nat) returns (r: Option<nat>, sends: seq<Pack>)
      requires SendValid()
      modifies this, mPacks, link
      ensures SendValid()
      ensures r.Some? <==> Held(old(SendView()), sequence).Some?
      ensures r.None? ==> SendView() == old(SendView()) && link.View() == old(link.View()) && sends == []
      ensures r.Some? ==>
                && var w := Acknowledge(old(SendView()), sequence);
                && r.value == w.base - old(base)
                && link.View() == OnSended(old(link.View()), Held(old(SendView()), sequence).value, time)
                && SendView() == Flushed(w, link.mCwnd, time)
                && sends == FlushSends(w, link.mCwnd, time)
    {
      hide Wire, Ahead, SlotOf, OnSended, FlushSends, Flushed;
      ghost var w := SendView();
      ghost var d := Ahead(base, sequence);
      var index := sequence % WIN_SIZE;
      SlotIndex(base, sequence);
      ghost var j := d % WIN_SIZE;
      SlotFacts(base, j, j);
      assert mPacks[index] == ring[j];
      if mPacks[index].None? || mPacks[index].value.sequence != sequence {
        return None, [];
      }
      assert j < mLength && ring[j] == w.slots[j];
      assert j == d by {
        if j != d {
          WireApart(base, j, d);
        }
      }
      link.OnUdpPackSended(mPacks[index].value, time);
      Put(index, None, d);
      ghost var cleared := w.(slots := w.slots[d := None]);
      assert ring[..mLength] == cleared.slots;
      var count := Trim(cleared);
      r := Some(count);
      sends := Flush(link, time);
    }

    /** Release the slot at the base; a send position at the base moves along. */
    method Release()
      requires RingOk() && mLength > 0 && Ahead(base, mSendSeq) <= WIN_SIZE
      modifies this
      ensures RingOk() && base == old(base) + 1 && mLength == old(mLength) - 1
      ensures ring == old(ring)[1..] + [old(ring)[0]]
      ensures forall i :: 0 <= i < WIN_SIZE - 1 ==> ring[i] == old(ring)[i + 1]
      ensures ring[WIN_SIZE - 1] == old(ring)[0]
      ensures Ahead(base, mSendSeq) == if old(Ahead(base, mSendSeq)) > 0 then old(Ahead(base, mSendSeq)) - 1 else 0
    {
      hide Wire, Ahead, SlotOf;
      AheadStep(base, mSendSeq);
      if mSequence == mSendSeq {
        mSendSeq := (mSendSeq + 1) % 65536;
      }
      Step();
      mLength := mLength - 1;
    }

    /** The loop of confirm that releases acknowledged slots at the base. */
    method ReleaseFirst(ghost slots: Slots)
      requires RingOk() && 0 < mLength && ring[..mLength] == slots && Ahead(base, mSendSeq) <= WIN_SIZE
      requires slots[0].None? && forall i :: mLength <= i < WIN_SIZE ==> ring[i].None?
      modifies this
      ensures RingOk() && base == old(base) + 1 && mLength == old(mLength) - 1 && ring[..mLength] == slots[1..]
      ensures forall i :: mLength <= i < WIN_SIZE ==> ring[i].None?
      ensures Ahead(base, mSendSeq) == if old(Ahead(base, mSendSeq)) > 0 then old(Ahead(base, mSendSeq)) - 1 else 0
    {
      hide Wire, Ahead, SlotOf;
      assert ring[0] == ring[..mLength][0];
      Release();
    }

    /** The window w with its first count slots, all of them free, released. */
    ghost predicate Trimmed(w: SendWin, count: nat)
      reads this, mPacks
    {
      && RingOk() && count <= LeadingNone(w.slots) && base == w.base + count && mLength == |w.slots| - count
      && (forall i :: mLength <= i < WIN_SIZE ==> ring[i].None?)
      && ring[..mLength] == w.slots[count..]
      && Ahead(base, mSendSeq) == if w.sent > count then w.sent - count else 0
    }

    method TrimOne(ghost w: SendWin, ghost count: nat) returns (more: bool)
      requires Trimmed(w, count) && mLength > 0 && w.sent <= |w.slots|
      modifies this
      ensures more == (count < LeadingNone(w.slots)) && Trimmed(w, if more then count + 1 else count)
      ensures mLength == if more then old(mLength) - 1 else old(mLength)
    {
      hide Wire, Ahead, SlotOf;
      var index := mSequence % WIN_SIZE;
      WireFacts(base, 0);
      SlotFacts(base, 0, 0);
      assert mPacks[index] == ring[0] == ring[..mLength][0];
      more := mPacks[index].None?;
      if more {
        ReleaseFirst(w.slots[count..]);
      }
    }

    method Trim(ghost w: SendWin) returns (count: nat)
      requires RingOk() && SendView() == w && w.sent <= |w.slots|
      requires Numbered(w)
      requires forall i :: mLength <= i < WIN_SIZE ==> ring[i].None?
      modifies this
      ensures SendValid() && SendView() == Slide(w, LeadingNone(w.slots)) && count == LeadingNone(w.slots)
    {
      count := 0;
      assert Trimmed(w, 0) by { assert w.slots[0..] == w.slots; }
      hide Trimmed, RingOk, SendView, SendValid;
      var more := true;
      while mLength > 0 && more
        invariant Trimmed(w, count)
        invariant !more ==> count == LeadingNone(w.slots)
        decreases mLength, more
      {
        more := TrimOne(w, count);
        if more {
          count := count + 1;
        }
      }
      AllTrimmed(w, count);
    }

    lemma AllTrimmed(w: SendWin, count: nat)
      requires Trimmed(w, count) && (mLength == 0 || count == LeadingNone(w.slots))
      requires Numbered(w) && w.sent <= |w.slots| <= WIN_SIZE
      ensures SendValid() && SendView() == Slide(w, LeadingNone(w.slots)) && count == LeadingNone(w.slots)
    {
      SlideValid(w);
      hide Wire, Ahead, SlotOf, SendWin.Valid, Numbered;
    }

    /** The retransmission timer; a time of zero in the source is Idle or Failed here. */
    method Resend(link: UdpLink, time: nat) returns (r: TimerResult, sends: seq<Pack>)
      requires SendValid()
      modifies this, mPacks, link
      ensures SendValid()
      ensures r == Timer(old(SendView()), old(link.View()), time)
      ensures !r.Resent? ==> SendView() == old(SendView()) && link.View() == old(link.View()) && sends == []
      ensures r.Resent? ==>
                && SendView() == Retried(old(SendView()), time)
                && link.View() == OnLose(old(link.View()))
                && sends == [Stamp(old(SendView()).slots[0].value, time)]
    {
      hide Wire, Ahead, SlotOf;
      ghost var w := SendView();
      var index := mSequence % WIN_SIZE;
      WireFacts(base, 0);
      SlotFacts(base, 0, 0);
      assert mPacks[index] == ring[0] && (mLength > 0 ==> ring[0] == w.slots[0]);
      if mPacks[index].None? {
        return Idle, [];
      }
      var pack := mPacks[index].value;
      if pack.times > 10 {
        return Failed, [];
      }
      var overtime := pack.time;
      if overtime == 0 {
        return Idle, [];
      }
      overtime := overtime + link.mRto;
      if time < overtime {
        return Later(overtime), [];
      }
      link.OnUdpPackLose();
      pack := Stamp(pack, time);
      Put(index, Some(pack), 0);
      mSendSeq := (mSequence + 1) % 65536;
      WireFacts(base, 1);
      return Resent(time + link.mRto), [pack];
    }

    method Receive(pack: Pack, allocOk: bool) returns (acked: bool, delivered: seq<seq<u8>>)
      requires RecvValid()
      modifies this, mPacks
      ensures RecvValid()
      ensures Received(RecvView(), delivered, acked) == Take(old(RecvView()), pack, allocOk)
    {
      hide Wire, Ahead, SlotOf, Empty, Payloads;
      ghost var w := RecvView();
      var sequence := pack.sequence;
      ghost var d := Ahead(base, sequence);
      delivered := [];
      var invalid := Invalid(sequence);
      if invalid {
        return true, [];
      }
      SlotIndex(base, sequence);
      var index := sequence % WIN_SIZE;
      SlotFacts(base, d, d);
      assert mPacks[index] == ring[d];
      if mPacks[index].Some? {
        return true, [];
      }
      WireFacts(base, 0);
      if sequence != mSequence {
        if !allocOk {
          return false, [];
        }
        Put(index, Some(pack), d);
        return true, [];
      }
      assert d == 0;
      delivered := DeliverHeld(w.held);
      AdvanceValid(w, pack.data);
      delivered := [pack.data] + delivered;
      return true, delivered;
    }

    /** The packets held behind the base, i of them handed over already. */
    ghost predicate HeldFrom(held: Slots, i: nat)
      reads this, mPacks
    {
      RingOk() && i < |held| == WIN_SIZE && ring == held[1 + i..] + Empty(1 + i)
    }

    /** One turn of the delivery loop: the packet at the base, if it is there, leaves its slot. */
    method HandOver(ghost held: Slots, ghost i: nat) returns (data: Option<seq<u8>>)
      requires HeldFrom(held, i)
      modifies this`ring, this`base, this`mSequence, mPacks
      ensures data.Some? <==> i + 1 < |held| && held[i + 1].Some?
      ensures data.Some? ==> data.value == held[i + 1].value.data
      ensures HeldFrom(held, if data.Some? then i + 1 else i) && base == old(base) + if data.Some? then 1 else 0
    {
      hide Wire, Ahead, SlotOf, Empty;
      EmptyNone(i);
      WireFacts(base, 0);
      SlotFacts(base, 0, 0);
      var index := mSequence % WIN_SIZE;
      assert mPacks[index] == ring[0] == if i + 1 < |held| then held[i + 1] else None;
      if mPacks[index].None? {
        return None;
      }
      data := Some(mPacks[index].value.data);
      EmptyNone(1 + i);
      HeldShift(held, 1 + i);
      Put(index, None, 0);
      Step();
    }

    /** The delivery loop of receive: the base moves past the packet just delivered and every packet held behind it. */
    method DeliverHeld(ghost held: Slots) returns (delivered: seq<seq<u8>>)
      requires RingOk() && ring == held && held[0].None?
      modifies this, mPacks
      ensures RingOk() && mLength == old(mLength)
      ensures var n := LeadingSome(held[1..]);
              && base == old(base) + 1 + n && ring == held[1 + n..] + Empty(1 + n)
              && delivered == Payloads(held[1..1 + n])
    {
      hide Wire, Ahead, SlotOf, Empty;
      ghost var n := LeadingSome(held[1..]);
      assert forall k :: 0 <= k < n ==> held[1..][k] == held[1 + k];
      ghost var i := 0;
      delivered := [];
      EmptyNone(1);
      Step();
      assert ring == held[1..] + Empty(1) && held[1..1] == [];
      hide RingOk;
      var more := true;
      while more
        invariant HeldFrom(held, i) && i <= n && base == old(base) + 1 + i && mLength == old(mLength)
        invariant AllHeld(held[1..1 + i])
        invariant delivered == Payloads(held[1..1 + i])
        invariant !more ==> i == n
        decreases n - i, more
      {
        var data := HandOver(held, i);
        if data.None? {
          more := false;
        } else {
          OneLonger(held, i);
          delivered := delivered + [data.value];
          i := i + 1;
        }
      }
    }
  }
}
