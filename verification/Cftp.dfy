/** Stop-and-wait file transfer (lib/cftp.c), in both directions: the client's sending loop against the server's
    receiving loop, and the server's against the client's, over channels that keep the order but may lose messages and
    repeat them. Block numbers are 16 bits on the wire; the unbounded ones in the messages below are history. */
module Cftp {
  import opened Arithmetic
  import opened Bytes
  import opened Wrappers

  /** A file, the most data one packet carries, and which of the two sending loops is at work. */
  datatype Job = Job(file: seq<u8>, max: nat, clientSends: bool)
  {
    ghost predicate Valid() { max > 0 }

    /** Where block n starts, or the end of the file. */
    function At(n: nat): nat { if n * max < |file| then n * max else |file| }

    /** The n-th block as read finds it: short, perhaps empty, at the end of the file. */
    function Chunk(n: nat): seq<u8> {
      if At(n) <= At(n + 1) then file[At(n)..At(n + 1)] else []
    }

    function Short(n: nat): bool { |Chunk(n)| < max }
  }

  datatype Msg = Msg(n: nat, data: seq<u8>)

  /** sent counts the blocks read from the file; the last one is what is transmitted again. The timer runs only inside
      the call that transmits, and that call returns with the first message. */
  datatype Sender = Sender(sent: nat, done: bool, timer: bool)

  datatype Receiver = Receiver(got: nat, written: seq<u8>, done: bool)

  /** A sending loop on an acknowledgement. A stale one makes it repeat its last block; only the client's loop ignores
      it when the 16-bit block counter is zero, and then waits without a timer. */
  function OnAck(job: Job, s: Sender, ack: u16): (r: (Sender, Option<Msg>)) {
    if s.done then (s, None)
    else if ack == Wire(s.sent) then
      if s.sent > 0 && job.Short(s.sent - 1) then (Sender(s.sent, true, false), None)
      else (Sender(s.sent + 1, false, true), Some(Msg(s.sent, job.Chunk(s.sent))))
    else if s.sent == 0 || (job.clientSends && Wire(s.sent) == 0) then (s.(timer := false), None)
    else (s.(timer := true), Some(Msg(s.sent - 1, job.Chunk(s.sent - 1))))
  }

  /** The receiving loop on a data packet: only the block it waits for is written, and every packet is answered. */
  function OnData(job: Job, r: Receiver, blk: u16, data: seq<u8>): (t: (Receiver, Option<nat>)) {
    if r.done then (r, None)
    else if blk != Wire(r.got) then (r, Some(r.got))
    else (Receiver(r.got + 1, r.written + data, |data| < job.max), Some(r.got + 1))
  }

  // ---- the two loops in place ----

  class SendLoop {
    const job: Job
    var offset: nat  // of the file
    var blkNum: u16
    var readlen: nat
    var dataBlk: u16
    var data: seq<u8>
    var done: bool
    var timer: bool  // inside cftp_send_data_retry
    ghost var sent: nat

    ghost predicate Valid()
      reads this
    {
      && job.Valid() && blkNum == Wire(sent) && (!job.clientSends ==> sent > 0)
      && offset == job.At(sent)
      && (sent == 0 ==> readlen == job.max)
      && (sent > 0 ==> dataBlk == Wire(sent - 1) && data == job.Chunk(sent - 1) && readlen == |data|)
    }

    ghost function View(): Sender
      reads this
    {
      Sender(sent, done, timer)
    }

    /** The client waits for the acknowledgement of its request, the server sends the first block at once. */
    constructor (job: Job)
      requires job.Valid()
      ensures Valid() && View() == Init(job).s && this.job == job
      ensures !job.clientSends ==> Init(job).toR == [Msg(0, data)]
    {
      this.job := job;
      offset, blkNum, readlen, dataBlk, data, done, timer, sent := 0, 0, job.max, 0, [], false, false, 0;
      new;
      assert job.At(0) == 0;
      if !job.clientSends {
        NextBlock();
      }
    }

    /** Read the next block, number it and transmit it. */
    method NextBlock()
      requires job.Valid() && blkNum == Wire(sent) && offset == job.At(sent) && !done
      modifies this
      ensures Valid() && View() == Sender(old(sent) + 1, false, true)
      ensures dataBlk == Wire(old(sent)) && data == job.Chunk(old(sent))
    {
      hide Job.At, Job.Chunk;
      ReadBlock();
      dataBlk := blkNum;
      blkNum := (blkNum + 1) % 65536;
      sent := sent + 1;
      timer := true;
    }

    method OnAckMessage(ack: u16) returns (packet: Option<(u16, seq<u8>)>)
      requires Valid() && !done
      modifies this
      ensures Valid()
      ensures var (s, m) := OnAck(job, old(View()), ack);
              && View() == s
              && packet == if m.None? then None else Some((Wire(m.value.n), m.value.data))
    {
      hide Job.At, Job.Chunk;
      if ack == blkNum {
        if readlen < job.max {
          done, timer := true, false;
          return None;
        }
        NextBlock();
      } else if job.clientSends && blkNum == 0 {
        timer := false;
        return None;
      } else {
        timer := true;
      }
      return Some((dataBlk, data));
    }

    method ReadBlock()
      requires job.Valid() && offset == job.At(sent)
      modifies this`offset, this`data, this`readlen
      ensures offset == job.At(sent + 1) && data == job.Chunk(sent) && readlen == |data|
    {
      ReadsChunk(job, sent);
      hide Job.At, Job.Chunk;
      var end := if offset + job.max < |job.file| then offset + job.max else |job.file|;
      data := job.file[offset..end];
      readlen := |data|;
      offset := end;
    }
  }

  /** Reading on from where block n starts gives block n and leaves the file at block n + 1. */
  lemma ReadsChunk(job: Job, n: nat)
    requires job.Valid()
    ensures var at := job.At(n);
            var end := if at + job.max < |job.file| then at + job.max else |job.file|;
            at <= end && end == job.At(n + 1) && job.Chunk(n) == job.file[at..end]
  {
    assert (n + 1) * job.max == n * job.max + job.max;
  }

  class ReceiveLoop {
    const job: Job
    var blkNum: u16
    var written: seq<u8>
    var done: bool
    ghost var got: nat

    ghost predicate Valid()
      reads this
    {
      blkNum == Wire(got)
    }

    ghost function View(): Receiver
      reads this
    {
      Receiver(got, written, done)
    }

    constructor (job: Job)
      ensures Valid() && View() == Receiver(0, [], false) && this.job == job
    {
      this.job := job;
      blkNum, written, done, got := 0, [], false, 0;
    }

    /** The answer carries the block number to be sent next. */
    method OnDataMessage(blk: u16, data: seq<u8>) returns (ack: u16)
      requires Valid() && !done
      modifies this
      ensures Valid()
      ensures var (r, a) := OnData(job, old(View()), blk, data);
              View() == r && a.Some? && ack == Wire(a.value)
    {
      if blk == blkNum {
        written := written + data;
        blkNum := (blkNum + 1) % 65536;
        got := got + 1;
        done := |data| < job.max;
      }
      ack := blkNum;
    }
  }

  // ---- the protocol ----

  datatype State = State(s: Sender, r: Receiver, toR: seq<Msg>, toS: seq<nat>)

  /** Acknowledgement 0 answers the client's request to write; its request to read is answered by block 0. */
  function Init(job: Job): State {
    if job.clientSends then State(Sender(0, false, false), Receiver(0, [], false), [], [0])
    else State(Sender(1, false, true), Receiver(0, [], false), [Msg(0, job.Chunk(0))], [])
  }

  datatype Step =
    | DeliverData
    | DeliverAck
    | RetryData  // the sender's timer
    | RetryAck  // the receiver's timer
    | LoseData(i: nat)
    | LoseAck(j: nat)
    | RepeatData(k: nat)
    | RepeatAck(l: nat)

  /** The receiver waits only inside the call that transmits an acknowledgement, so its timer always runs; the client
      as the receiver has nothing to acknowledge before block 0. */
  predicate Enabled(job: Job, t: State, e: Step) {
    match e
    case DeliverData => t.toR != []
    case DeliverAck => t.toS != []
    case RetryData => t.s.sent > 0 && !t.s.done && t.s.timer
    case RetryAck => !t.r.done && (job.clientSends || t.r.got > 0)
    case LoseData(i) => i < |t.toR|
    case LoseAck(i) => i < |t.toS|
    case RepeatData(i) => i < |t.toR|
    case RepeatAck(i) => i < |t.toS|
  }

  function Drop<T>(q: seq<T>, i: nat): seq<T>
    requires i < |q|
  {
    q[..i] + q[i + 1..]
  }

  function Repeat<T>(q: seq<T>, i: nat): seq<T>
    requires i < |q|
  {
    q[..i + 1] + q[i..]
  }

  function Put<T>(q: seq<T>, m: Option<T>): seq<T> { if m.None? then q else q + [m.value] }

  function Apply(job: Job, t: State, e: Step): State
    requires Enabled(job, t, e)
  {
    match e
    case DeliverData =>
      var (r, ack) := OnData(job, t.r, Wire(t.toR[0].n), t.toR[0].data);
      t.(r := r, toR := t.toR[1..], toS := Put(t.toS, ack))
    case DeliverAck =>
      var (s, m) := OnAck(job, t.s, Wire(t.toS[0]));
      t.(s := s, toS := t.toS[1..], toR := Put(t.toR, m))
    case RetryData => t.(toR := t.toR + [Msg(t.s.sent - 1, job.Chunk(t.s.sent - 1))])
    case RetryAck => t.(toS := t.toS + [t.r.got])
    case LoseData(i) => t.(toR := Drop(t.toR, i))
    case LoseAck(i) => t.(toS := Drop(t.toS, i))
    case RepeatData(i) => t.(toR := Repeat(t.toR, i))
    case RepeatAck(i) => t.(toS := Repeat(t.toS, i))
  }

  /** In order, and within bounds. */
  ghost predicate Between(q: seq<nat>, lo: int, hi: int) {
    && (forall i :: 0 <= i < |q| ==> lo <= q[i] <= hi)
    && (forall i, j :: 0 <= i < j < |q| ==> q[i] <= q[j])
  }

  function Numbers(q: seq<Msg>): seq<nat> { seq(|q|, i requires 0 <= i < |q| => q[i].n) }

  /** How far apart the two ends and everything between them can be. */
  ghost predicate Inv(job: Job, t: State) {
    && job.Valid()
    && t.s.sent - 1 <= t.r.got <= t.s.sent
    && Between(Numbers(t.toR), t.r.got - 1, t.s.sent - 1)
    && Between(t.toS, t.s.sent - 1, t.r.got)
    && DataOk(job, t.toR)
    && t.r.written == job.file[..job.At(t.r.got)]
    && (t.r.done <==> t.r.got > 0 && job.Short(t.r.got - 1))
    && (t.s.done ==> t.r.done && t.r.got == t.s.sent)
    && (!job.clientSends ==> t.s.sent > 0 && (t.s.timer || t.s.done))
    && (t.s.sent > 1 ==> !job.Short(t.s.sent - 2))
  }

  lemma SeqBetween<T>(q: seq<nat>, lo: int, hi: int)
    requires Between(q, lo, hi) && q != []
    ensures Between(q[1..], q[0], hi) && lo <= q[0] <= hi
  {
  }

  lemma PutBetween(q: seq<nat>, lo: int, hi: int, n: nat)
    requires Between(q, lo, hi) && lo <= hi <= n
    ensures Between(q + [n], lo, n)
  {
  }

  lemma DropBetween(q: seq<nat>, lo: int, hi: int, i: nat)
    requires Between(q, lo, hi) && i < |q|
    ensures Between(Drop(q, i), lo, hi) && Between(Repeat(q, i), lo, hi)
  {
    var d, r := Drop(q, i), Repeat(q, i);
    forall j, k | 0 <= j <= k < |d|
      ensures lo <= d[j] <= d[k] <= hi
    {
      var j', k' := if j < i then j else j + 1, if k < i then k else k + 1;
      assert d[j] == q[j'] && d[k] == q[k'] && q[j'] <= q[k'];
    }
    forall j, k | 0 <= j <= k < |r|
      ensures lo <= r[j] <= r[k] <= hi
    {
      var j', k' := if j <= i then j else j - 1, if k <= i then k else k - 1;
      assert r[j] == q[j'] && r[k] == q[k'] && q[j'] <= q[k'];
    }
  }

  /** Neighbouring block numbers differ on the wire: more than that never meets. */
  lemma WireTells(a: nat, b: nat)
    requires a - 1 <= b <= a + 1
    ensures Wire(a) == Wire(b) <==> a == b
  {
  }

  /** A full block ends inside the file, so blocks follow each other without gaps; a short one ends the file. */
  lemma ChunksJoin(job: Job, n: nat)
    requires job.Valid()
    ensures job.At(n) <= job.At(n + 1)
    ensures job.file[..job.At(n)] + job.Chunk(n) == job.file[..job.At(n + 1)]
    ensures job.Short(n) ==> job.At(n + 1) == |job.file|
  {
    ReadsChunk(job, n);
  }

  /** The short block is the one that starts less than a full block before the end, an empty one included. */
  lemma ShortIff(job: Job, n: nat)
    requires job.Valid()
    ensures job.Short(n) <==> (n + 1) * job.max > |job.file|
  {
    assert (n + 1) * job.max == n * job.max + job.max;
  }

  ghost predicate DataOk(job: Job, q: seq<Msg>) { forall i :: 0 <= i < |q| ==> q[i].data == job.Chunk(q[i].n) }

  lemma DataStep(job: Job, t: State)
    requires Inv(job, t) && t.toR != []
    ensures Inv(job, Apply(job, t, DeliverData))
  {
    hide Job.At, Job.Chunk, Wire, Between;
    var u := Apply(job, t, DeliverData);
    var m := t.toR[0];
    var ns := Numbers(t.toR);
    assert ns[0] == m.n && Numbers(t.toR[1..]) == ns[1..];
    assert u.toR == t.toR[1..];
    SeqBetween<nat>(ns, t.r.got - 1, t.s.sent - 1);
    WireTells(m.n, t.r.got);
    ChunksJoin(job, m.n);
    if !t.r.done {
      PutBetween(t.toS, t.s.sent - 1, t.r.got, u.r.got);
    }
    if m.n < t.r.got || t.r.done {
      assert u.r == t.r;
      Loosen(Numbers(u.toR), m.n, t.r.got - 1, t.s.sent - 1);
    } else {
      assert u.r.got == m.n + 1;
    }
  }

  lemma Loosen(q: seq<nat>, lo: int, lo': int, hi: int)
    requires Between(q, lo, hi) && lo' <= lo
    ensures Between(q, lo', hi)
  {
  }

  lemma AckStep(job: Job, t: State)
    requires Inv(job, t) && t.toS != []
    ensures Inv(job, Apply(job, t, DeliverAck))
  {
    hide Job.At, Job.Chunk, Wire, Between;
    var u := Apply(job, t, DeliverAck);
    var n := t.toS[0];
    SeqBetween<nat>(t.toS, t.s.sent - 1, t.r.got);
    WireTells(n, t.s.sent);
    Loosen(u.toS, n, t.s.sent - 1, t.r.got);
    var (s, m) := OnAck(job, t.s, Wire(n));
    if m.Some? {
      PutBetween(Numbers(t.toR), t.r.got - 1, t.s.sent - 1, m.value.n);
      assert Numbers(t.toR + [m.value]) == Numbers(t.toR) + [m.value.n];
    }
  }

  lemma ToReceiver(job: Job, t: State, q: seq<Msg>)
    requires Inv(job, t) && Between(Numbers(q), t.r.got - 1, t.s.sent - 1) && DataOk(job, q)
    ensures Inv(job, t.(toR := q))
  {
    hide Job.At, Job.Chunk, Wire, Between;
  }

  lemma ToSender(job: Job, t: State, q: seq<nat>)
    requires Inv(job, t) && Between(q, t.s.sent - 1, t.r.got)
    ensures Inv(job, t.(toS := q))
  {
    hide Job.At, Job.Chunk, Wire, Between;
  }

  lemma StepKeepsInv(job: Job, t: State, e: Step)
    requires Inv(job, t) && Enabled(job, t, e)
    ensures Inv(job, Apply(job, t, e))
  {
    hide Inv, Drop, Repeat, Wire, Job.At, Job.Chunk;
    match e
    case DeliverData => DataStep(job, t);
    case DeliverAck => AckStep(job, t);
    case RetryData => RetryDataStep(job, t);
    case RetryAck => RetryAckStep(job, t);
    case LoseData(i) => QueueStep(job, t, i);
    case LoseAck(i) => AckQueueStep(job, t, i);
    case RepeatData(i) => QueueStep(job, t, i);
    case RepeatAck(i) => AckQueueStep(job, t, i);
  }

  lemma RetryDataStep(job: Job, t: State)
    requires Inv(job, t) && Enabled(job, t, RetryData)
    ensures Inv(job, Apply(job, t, RetryData))
  {
    hide Job.At, Job.Chunk, Wire, Between;
    var m := Msg(t.s.sent - 1, job.Chunk(t.s.sent - 1));
    PutBetween(Numbers(t.toR), t.r.got - 1, t.s.sent - 1, m.n);
    assert Numbers(t.toR + [m]) == Numbers(t.toR) + [m.n];
    ToReceiver(job, t, t.toR + [m]);
  }

  lemma RetryAckStep(job: Job, t: State)
    requires Inv(job, t) && Enabled(job, t, RetryAck)
    ensures Inv(job, Apply(job, t, RetryAck))
  {
    hide Job.At, Job.Chunk, Wire, Between;
    PutBetween(t.toS, t.s.sent - 1, t.r.got, t.r.got);
    ToSender(job, t, t.toS + [t.r.got]);
  }

  lemma AckQueueStep(job: Job, t: State, i: nat)
    requires Inv(job, t) && i < |t.toS|
    ensures Inv(job, t.(toS := Drop(t.toS, i))) && Inv(job, t.(toS := Repeat(t.toS, i)))
  {
    hide Job.At, Job.Chunk, Wire, Between;
    DropBetween(t.toS, t.s.sent - 1, t.r.got, i);
    ToSender(job, t, Drop(t.toS, i));
    ToSender(job, t, Repeat(t.toS, i));
  }

  lemma QueueStep(job: Job, t: State, i: nat)
    requires Inv(job, t) && i < |t.toR|
    ensures Inv(job, t.(toR := Drop(t.toR, i))) && Inv(job, t.(toR := Repeat(t.toR, i)))
  {
    hide Job.At, Job.Chunk, Wire, Between;
    DropBetween(Numbers(t.toR), t.r.got - 1, t.s.sent - 1, i);
    assert Numbers(Drop(t.toR, i)) == Drop(Numbers(t.toR), i);
    assert Numbers(Repeat(t.toR, i)) == Repeat(Numbers(t.toR), i);
    ToReceiver(job, t, Drop(t.toR, i));
    ToReceiver(job, t, Repeat(t.toR, i));
  }

  ghost predicate Run(job: Job, states: seq<State>, steps: seq<Step>) {
    && job.Valid()
    && |states| == |steps| + 1
    && states[0] == Init(job)
    && forall i :: 0 <= i < |steps| ==>
         Enabled(job, states[i], steps[i]) && states[i + 1] == Apply(job, states[i], steps[i])
  }

  lemma {:induction false} RunKeepsInv(job: Job, states: seq<State>, steps: seq<Step>, k: nat)
    requires Run(job, states, steps) && k < |states|
    ensures Inv(job, states[k])
  {
    if k > 0 {
      RunKeepsInv(job, states, steps, k - 1);
      StepKeepsInv(job, states[k - 1], steps[k - 1]);
    }
  }

  /** In every reachable state what was written is a prefix of the file, and the whole file once the receiver has its
      short block; the sender reports success only then. The two counts never differ by more than one. */
  lemma TransferIsFaithful(job: Job, states: seq<State>, steps: seq<Step>, k: nat)
    requires Run(job, states, steps) && k < |states|
    ensures var t := states[k];
            && t.r.written <= job.file
            && t.s.sent - 1 <= t.r.got <= t.s.sent
            && (t.r.done ==> t.r.written == job.file)
            && (t.s.done ==> t.r.written == job.file)
  {
    RunKeepsInv(job, states, steps, k);
    var t := states[k];
    if t.r.done {
      ChunksJoin(job, t.r.got - 1);
    }
  }

  /** How many blocks a finished transfer took: one more than the file has full blocks, also for exact multiples. */
  lemma BlocksTaken(job: Job, states: seq<State>, steps: seq<Step>, k: nat)
    requires Run(job, states, steps) && k < |states| && states[k].s.done
    ensures states[k].s.sent == |job.file| / job.max + 1
  {
    hide Job.At, Job.Chunk, Job.Short, Between;
    RunKeepsInv(job, states, steps, k);
    var n := states[k].s.sent - 1;
    ShortIff(job, n);
    if n > 0 {
      ShortIff(job, n - 1);
    }
    QuotientIs(|job.file|, job.max, n);
  }

  lemma QuotientIs(a: nat, m: nat, n: nat)
    requires m > 0 && n * m <= a < (n + 1) * m
    ensures a / m == n
  {
    assert (n + 1) * m == n * m + m && m * n == n * m;
    Remainder(a, m, n, a - m * n);
  }

  // ---- which transfers can still end ----

  ghost predicate Leads(job: Job, t: State, steps: seq<Step>, u: State)
    decreases |steps|
  {
    if steps == [] then t == u
    else Enabled(job, t, steps[0]) && Leads(job, Apply(job, t, steps[0]), steps[1..], u)
  }

  ghost predicate CanFinish(job: Job, t: State) {
    exists steps: seq<Step>, u: State :: Leads(job, t, steps, u) && u.s.done
  }

  /** Only arrivals and timers: the network behaves from here on. */
  ghost predicate Clean(steps: seq<Step>) {
    forall e :: e in steps ==> e.DeliverData? || e.DeliverAck? || e.RetryData? || e.RetryAck?
  }

  ghost predicate FinishesBy(job: Job, t: State, steps: seq<Step>, u: State) {
    Clean(steps) && Leads(job, t, steps, u) && u.s.done
  }

  /** The client's sender ignored an acknowledgement while its 16-bit counter stood at zero, so it waits without a
      timer, and no copy of the block that the receiver asks for is left. */
  ghost predicate Deaf(job: Job, t: State) {
    && job.clientSends && t.s.sent > 0 && t.s.sent % 65536 == 0 && !t.s.timer && !t.s.done
    && !t.r.done && t.r.got == t.s.sent - 1
    && forall i :: 0 <= i < |t.toR| ==> t.toR[i].n != t.s.sent - 1
  }

  /** The receiver has left with the whole file, and its last acknowledgement, sent once, was lost. */
  ghost predicate Unanswered(t: State) {
    t.r.done && !t.s.done && forall i :: 0 <= i < |t.toS| ==> t.toS[i] != t.s.sent
  }

  ghost predicate Hopeless(job: Job, t: State) { Deaf(job, t) || Unanswered(t) }

  /** Nothing at all gets a deaf sender going again, and nothing more is written. */
  lemma DeafStep(job: Job, t: State, e: Step)
    requires Inv(job, t) && Deaf(job, t) && Enabled(job, t, e)
    ensures var u := Apply(job, t, e); Deaf(job, u) && u.r.written == t.r.written
  {
    hide Job.At, Job.Chunk;
    if e.DeliverAck? {
      SeqBetween<nat>(t.toS, t.s.sent - 1, t.r.got);
      WireTells(t.toS[0], t.s.sent);
    } else if e.DeliverData? {
      var ns := Numbers(t.toR);
      SeqBetween<nat>(ns, t.r.got - 1, t.s.sent - 1);
      assert ns[0] == t.toR[0].n;
      WireTells(t.toR[0].n, t.r.got);
    }
  }

  lemma UnansweredStep(job: Job, t: State, e: Step)
    requires Inv(job, t) && Unanswered(t) && Enabled(job, t, e)
    ensures Unanswered(Apply(job, t, e))
  {
    hide Job.At, Job.Chunk;
    if e.DeliverAck? {
      SeqBetween<nat>(t.toS, t.s.sent - 1, t.r.got);
      WireTells(t.toS[0], t.s.sent);
    }
  }

  lemma {:induction false} StaysHopeless(job: Job, t: State, steps: seq<Step>, u: State)
    requires Inv(job, t) && Hopeless(job, t) && Leads(job, t, steps, u)
    ensures Hopeless(job, u) && Inv(job, u) && (Deaf(job, t) ==> Deaf(job, u) && u.r.written == t.r.written)
    decreases |steps|
  {
    if steps != [] {
      hide Inv, Apply, Enabled, Deaf, Unanswered;
      var e := steps[0];
      StepKeepsInv(job, t, e);
      if Deaf(job, t) { DeafStep(job, t, e); } else { UnansweredStep(job, t, e); }
      StaysHopeless(job, Apply(job, t, e), steps[1..], u);
    }
  }

  /** From a deaf state no run finishes on either end or writes anything more. */
  lemma DeafForever(job: Job, t: State, steps: seq<Step>, u: State)
    requires Inv(job, t) && Deaf(job, t) && Leads(job, t, steps, u)
    ensures !u.s.done && !u.r.done && u.r.written == t.r.written
  {
    StaysHopeless(job, t, steps, u);
  }

  /** A copy of what the other end waits for is under way: the next acknowledgement, or the block asked for. */
  ghost predicate Coming(t: State) {
    if t.r.got == t.s.sent then t.r.got in t.toS else t.r.got in Numbers(t.toR)
  }

  // How far a state is from the end: blocks to go, whether a copy must still be made, and messages in front of it.
  ghost function ToGo(job: Job, t: State): int { 2 * (|job.file| + 2) - t.s.sent - t.r.got }

  ghost function Missing(t: State): nat { if Coming(t) then 0 else 1 }

  ghost function Ahead(t: State): nat {
    if t.r.got == t.s.sent then |t.toS| else |t.toR| + if t.toS == [] then 1 else 0
  }

  ghost predicate Nearer(job: Job, t: State, u: State) {
    if ToGo(job, u) != ToGo(job, t) then ToGo(job, u) < ToGo(job, t)
    else if Missing(u) != Missing(t) then Missing(u) < Missing(t)
    else Ahead(u) < Ahead(t)
  }

  lemma ToGoIsLeft(job: Job, t: State)
    requires Inv(job, t)
    ensures ToGo(job, t) > 0
  {
    hide Job.At, Job.Chunk, Job.Short, Between, DataOk;
    if t.s.sent > 1 {
      ShortIff(job, t.s.sent - 2);
      Multiple(t.s.sent - 1, job.max);
    }
  }

  /** The block asked for is made to arrive. */
  lemma AwaitBlock(job: Job, t: State) returns (e: Step)
    requires Inv(job, t) && !Hopeless(job, t) && !t.s.done && t.r.got != t.s.sent
    ensures Clean([e]) && Enabled(job, t, e) && !Hopeless(job, Apply(job, t, e)) && Nearer(job, t, Apply(job, t, e))
  {
    hide Job.At, Job.Chunk;
    var ns := Numbers(t.toR);
    if t.toR != [] {
      SeqBetween<nat>(ns, t.r.got - 1, t.s.sent - 1);
      assert ns[0] == t.toR[0].n && Numbers(t.toR[1..]) == ns[1..];
      e := DeliverData;
      WireTells(ns[0], t.r.got);
      if ns[0] == t.r.got {
        assert (t.toS + [t.r.got + 1])[|t.toS|] == t.s.sent;
      } else {
        assert forall i :: 0 <= i < |ns| && ns[i] == t.r.got ==> ns[1..][i - 1] == t.r.got;
      }
    } else if t.s.timer {
      e := RetryData;
      assert Numbers(Apply(job, t, e).toR)[0] == t.r.got;
    } else if t.toS == [] {
      e := RetryAck;
    } else {
      e := DeliverAck;
      SeqBetween<nat>(t.toS, t.s.sent - 1, t.r.got);
      WireTells(t.toS[0], t.s.sent);
      assert Numbers(Apply(job, t, e).toR)[0] == t.r.got;
    }
  }

  lemma FreshAckHelps(job: Job, t: State)
    requires Inv(job, t) && !t.s.done && t.r.got == t.s.sent && t.toS != [] && t.toS[0] == t.s.sent
    ensures var u := Apply(job, t, DeliverAck); u.s.done || (!Hopeless(job, u) && ToGo(job, u) < ToGo(job, t))
  {
    hide Job.At, Job.Chunk, Between, DataOk;
  }

  lemma StaleAckIsInTheWay(job: Job, t: State)
    requires Inv(job, t) && !Hopeless(job, t) && !t.s.done && t.r.got == t.s.sent
    requires t.toS != [] && t.toS[0] != t.s.sent
    ensures var u := Apply(job, t, DeliverAck);
            !Hopeless(job, u) && Missing(u) == Missing(t) && Ahead(u) < Ahead(t) && ToGo(job, u) == ToGo(job, t)
  {
    hide Job.At, Job.Chunk, DataOk;
    SeqBetween<nat>(t.toS, t.s.sent - 1, t.r.got);
    WireTells(t.toS[0], t.s.sent);
    hide Between;
    assert forall i :: 0 <= i < |t.toS| && t.toS[i] == t.r.got ==> t.toS[1..][i - 1] == t.r.got;
  }

  /** The next acknowledgement is made to arrive. */
  lemma AwaitAck(job: Job, t: State) returns (e: Step)
    requires Inv(job, t) && !Hopeless(job, t) && !t.s.done && t.r.got == t.s.sent
    ensures Clean([e]) && Enabled(job, t, e)
    ensures var u := Apply(job, t, e); u.s.done || (!Hopeless(job, u) && Nearer(job, t, u))
  {
    hide Job.At, Job.Chunk, DataOk, Between;
    if t.toS == [] {
      e := RetryAck;
      assert Apply(job, t, e).toS[0] == t.r.got;
    } else {
      e := DeliverAck;
      if t.toS[0] == t.s.sent { FreshAckHelps(job, t); } else { StaleAckIsInTheWay(job, t); }
    }
  }

  lemma FinishesAfter(job: Job, t: State, e: Step, steps: seq<Step>, u: State) returns (all: seq<Step>)
    requires Clean([e]) && Enabled(job, t, e) && FinishesBy(job, Apply(job, t, e), steps, u)
    ensures FinishesBy(job, t, all, u)
  {
    hide Enabled, Apply;
    all := [e] + steps;
    assert e in [e] && all[0] == e && all[1..] == steps;
  }

  lemma {:induction false} Finishes(job: Job, t: State) returns (steps: seq<Step>, u: State)
    requires Inv(job, t) && !Hopeless(job, t)
    ensures FinishesBy(job, t, steps, u)
    decreases ToGo(job, t), Missing(t), Ahead(t)
  {
    hide Inv, Hopeless, Apply, Enabled, Missing, Ahead;
    steps, u := [], t;
    if !t.s.done {
      ToGoIsLeft(job, t);
      var e;
      if t.r.got == t.s.sent { e := AwaitAck(job, t); } else { e := AwaitBlock(job, t); }
      StepKeepsInv(job, t, e);
      u := Apply(job, t, e);
      if !u.s.done {
        steps, u := Finishes(job, u);
      }
      steps := FinishesAfter(job, t, e, steps, u);
    }
  }

  /** From any state of any run the transfer can still end well if and only if the sender is not deaf and has not missed
      the last acknowledgement; then arrivals and timers alone bring it to the end. */
  lemma CompletesIff(job: Job, t: State)
    requires Inv(job, t)
    ensures CanFinish(job, t) <==> !Hopeless(job, t)
    ensures CanFinish(job, t) ==> exists steps: seq<Step>, u: State :: FinishesBy(job, t, steps, u)
  {
    if Hopeless(job, t) {
      forall steps: seq<Step>, u: State | Leads(job, t, steps, u)
        ensures !u.s.done
      {
        StaysHopeless(job, t, steps, u);
      }
    } else {
      var steps, u := Finishes(job, t);
    }
  }

  // ---- what the receiver can do alone ----

  /** The last block was lost, and only acknowledgements of the one before are about. */
  ghost predicate LostBlock(t: State) {
    && t.s.sent > 0 && !t.s.done
    && !t.r.done && t.r.got == t.s.sent - 1
    && t.toR == [] && forall i :: 0 <= i < |t.toS| ==> t.toS[i] == t.s.sent - 1
  }

  /** The client's loop answers a stale acknowledgement unless its counter is zero, the server's always does; but the
      client has none to send before its first block. */
  ghost predicate Heard(job: Job, t: State) {
    if job.clientSends then t.s.sent % 65536 != 0 else t.r.got > 0 || t.toS != []
  }

  lemma UnheardStep(job: Job, t: State, e: Step)
    requires LostBlock(t) && !Heard(job, t) && Enabled(job, t, e) && e != RetryData
    ensures LostBlock(Apply(job, t, e)) && !Heard(job, Apply(job, t, e))
  {
    if e.DeliverAck? {
      WireTells(t.toS[0], t.s.sent);
    }
  }

  lemma {:induction false} StaysUnheard(job: Job, t: State, steps: seq<Step>, u: State)
    requires LostBlock(t) && !Heard(job, t) && Leads(job, t, steps, u) && RetryData !in steps
    ensures LostBlock(u)
    decreases |steps|
  {
    if steps != [] {
      UnheardStep(job, t, steps[0]);
      StaysUnheard(job, Apply(job, t, steps[0]), steps[1..], u);
    }
  }

  /** A lost block can be had again without the sender's timer if and only if the receiver is heard. */
  lemma ReceiverRevivesIff(job: Job, t: State)
    requires LostBlock(t)
    ensures (exists steps, u :: Leads(job, t, steps, u) && RetryData !in steps && u.toR != []) <==> Heard(job, t)
  {
    hide Job.Chunk;
    if Heard(job, t) {
      var asked := if t.toS == [] then Apply(job, t, RetryAck) else t;
      assert asked.toS != [] && asked.toS[0] == t.s.sent - 1;
      WireTells(asked.toS[0], t.s.sent);
      var u := Apply(job, asked, DeliverAck);
      assert Leads(job, asked, [DeliverAck], u);
      var steps := if t.toS == [] then [RetryAck, DeliverAck] else [DeliverAck];
      assert [RetryAck, DeliverAck][1..] == [DeliverAck];
      assert Leads(job, t, steps, u) && RetryData !in steps && u.toR != [];
    } else {
      forall steps, u | Leads(job, t, steps, u) && RetryData !in steps
        ensures u.toR == []
      {
        StaysUnheard(job, t, steps, u);
      }
    }
  }

  // ---- where these states are met ----

  /** Block n was sent for the first time and is the only message under way. */
  ghost predicate OnItsWay(job: Job, t: State, n: nat) {
    && t.s == Sender(n + 1, false, true) && t.r.got == n && !t.r.done
    && t.toR == [Msg(n, job.Chunk(n))] && t.toS == []
  }

  lemma Extends(job: Job, states: seq<State>, steps: seq<Step>, e: Step)
    returns (more: seq<State>, done: seq<Step>)
    requires Run(job, states, steps) && Enabled(job, states[|steps|], e)
    ensures Run(job, more, done) && more[|done|] == Apply(job, states[|steps|], e)
  {
    hide Apply, Enabled, Init;
    more, done := states + [Apply(job, states[|steps|], e)], steps + [e];
  }

  /** A transfer without losses, up to n full blocks. */
  lemma {:induction false} SmoothRun(job: Job, n: nat) returns (states: seq<State>, steps: seq<Step>)
    requires job.Valid() && n * job.max <= |job.file|
    ensures Run(job, states, steps) && OnItsWay(job, states[|steps|], n)
  {
    hide Job.Chunk, Run;
    if n == 0 {
      states, steps := [Init(job)], [];
      StartsRun(job);
      if job.clientSends { states, steps := Extends(job, states, steps, DeliverAck); }
    } else {
      assert n * job.max == (n - 1) * job.max + job.max;
      states, steps := SmoothRun(job, n - 1);
      ShortIff(job, n - 1);
      states, steps := Extends(job, states, steps, DeliverData);
      states, steps := Extends(job, states, steps, DeliverAck);
    }
  }

  lemma StartsRun(job: Job)
    requires job.Valid()
    ensures Run(job, [Init(job)], [])
  {
  }

  /** A run for every job reaches the other hopeless state: the last acknowledgement is lost. */
  lemma UnansweredIsReached(job: Job) returns (states: seq<State>, steps: seq<Step>)
    requires job.Valid()
    ensures Run(job, states, steps) && Unanswered(states[|steps|])
  {
    hide Job.Chunk, Run;
    var n := |job.file| / job.max;
    DivMod(|job.file|, job.max);
    states, steps := SmoothRun(job, n);
    ShortIff(job, n);
    states, steps := Extends(job, states, steps, DeliverData);
    states, steps := Extends(job, states, steps, LoseAck(0));
  }

  lemma DeafIsFar(job: Job, t: State)
    requires Inv(job, t) && Deaf(job, t)
    ensures 65535 * job.max <= |job.file|
  {
    var n := t.s.sent;
    assert n >= 65536;
    ShortIff(job, n - 2);
    assert (n - 1) * job.max >= 65535 * job.max;
  }

  ghost predicate IsReached(job: Job, states: seq<State>, steps: seq<Step>) {
    Run(job, states, steps) && Deaf(job, states[|steps|])
  }

  /** Some run makes the sender deaf exactly when the client sends at least 65535 full blocks: the 65536th is lost and
      the receiver's repeated acknowledgement overtakes the sender's timer. */
  lemma DeafIsReachedIff(job: Job)
    requires job.Valid()
    ensures (exists states: seq<State>, steps: seq<Step> :: IsReached(job, states, steps))
            <==> job.clientSends && 65535 * job.max <= |job.file|
  {
    if job.clientSends && 65535 * job.max <= |job.file| {
      var states, steps := SmoothRun(job, 65535);
      hide Job.Chunk;
      states, steps := Extends(job, states, steps, LoseData(0));
      states, steps := Extends(job, states, steps, RetryAck);
      states, steps := Extends(job, states, steps, DeliverAck);
      assert IsReached(job, states, steps);
    } else {
      forall states: seq<State>, steps: seq<Step>
        ensures !IsReached(job, states, steps)
      {
        if IsReached(job, states, steps) {
          RunKeepsInv(job, states, steps, |steps|);
          DeafIsFar(job, states[|steps|]);
        }
      }
    }
  }
}
