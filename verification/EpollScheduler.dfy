/** The work queue of the epoll daemons (cpp/EpollService.cpp, include/cavan++/EpollService.h). A client is linked into
    the queue through its own mEpollNext field, and a client linked to itself is idle. Every step below is one critical
    section of the source; daemons and posters may interleave in any order. */
module EpollScheduler {

  /** The scheduler without pointers. Daemons are counted by what they are doing: created but not yet started, awake,
      asleep on the condition, or notified and not yet running again. */
  datatype Sched<!C> = Sched(
    clients: set<C>,
    queue: seq<C>,
    owned: set<C>,
    dead: set<C>,
    pending: set<C>,
    min: nat,
    max: nat,
    spawning: nat,
    busy: nat,
    asleep: nat,
    woken: nat)
  {
    function Ready(): nat { asleep + woken }

    function Total(): nat { busy + asleep + woken }

    ghost predicate Idle(c: C) { c in clients && c !in queue && c !in owned && c !in dead }

    /** Daemons that are awake without a client in hand, that is, at the top of their loop. */
    ghost predicate AtTop() { |owned| < busy }

    /** Each client is queued at most once, and in at most one place. */
    ghost predicate Placed() {
      && (forall i, j :: 0 <= i < j < |queue| ==> queue[i] != queue[j])
      && (forall c <- queue :: c in clients && c !in owned && c !in dead)
      && owned <= clients && dead <= clients && owned !! dead
    }

    ghost predicate Inv() {
      && Placed()
      && |owned| <= busy
      // an event that has not been looked at keeps its client out of the idle state
      && pending <= clients
      && (forall c <- pending :: !Idle(c))
      // work in the queue has a daemon coming for it
      && (queue != [] && max >= 1 ==> busy + woken + spawning > 0)
    }
  }

  datatype Step<!C> = Post(c: C) | Start | Wake | Spurious | Sleep | Exit | Take | Finish(f: C, ret: int)

  ghost predicate Enabled<C>(s: Sched<C>, e: Step<C>) {
    match e
    case Post(c) => c in s.clients
    case Start => s.spawning > 0
    case Wake => s.woken > 0
    case Spurious => s.asleep > 0
    case Sleep => s.queue == [] && s.AtTop() && s.Ready() <= s.min
    case Exit => s.queue == [] && s.AtTop() && s.Ready() > s.min
    case Take => s.queue != [] && s.AtTop()
    case Finish(c, _) => c in s.owned
  }

  /** An idle client enters the queue: notify only when it was empty, create a daemon only when none is ready. */
  ghost function Queued<C>(s: Sched<C>, c: C): Sched<C> {
    var q := if s.queue == [] && s.asleep > 0 then s.(asleep := s.asleep - 1, woken := s.woken + 1) else s;
    q.(queue := s.queue + [c],
       spawning := if s.Ready() == 0 && s.Total() < s.max then s.spawning + 1 else s.spawning)
  }

  ghost function Posted<C>(s: Sched<C>, c: C): Sched<C> {
    var p := s.(pending := s.pending + {c});
    if c in s.queue || c in s.owned || c in s.dead then p else Queued(p, c)
  }

  /** A handled client is dropped on error, queued again if it asked for it or an event came in meanwhile, idle else. */
  ghost function Finished<C>(s: Sched<C>, c: C, ret: int): Sched<C> {
    if ret < 0 then s.(owned := s.owned - {c}, dead := s.dead + {c})
    else if ret > 0 || c in s.pending then s.(owned := s.owned - {c}, queue := s.queue + [c])
    else s.(owned := s.owned - {c})
  }

  ghost function Taken<C>(s: Sched<C>): Sched<C>
    requires s.queue != []
  {
    s.(queue := s.queue[1..], owned := s.owned + {s.queue[0]}, pending := s.pending - {s.queue[0]})
  }

  ghost function Apply<C>(s: Sched<C>, e: Step<C>): Sched<C>
    requires Enabled(s, e)
  {
    match e
    case Post(c) => Posted(s, c)
    case Start => s.(spawning := s.spawning - 1, busy := s.busy + 1)
    case Wake => s.(woken := s.woken - 1, busy := s.busy + 1)
    case Spurious => s.(asleep := s.asleep - 1, busy := s.busy + 1)
    case Sleep => s.(busy := s.busy - 1, asleep := s.asleep + 1)
    case Exit => s.(busy := s.busy - 1)
    case Take => Taken(s)
    case Finish(c, ret) => Finished(s, c, ret)
  }

  ghost function Initial<C>(clients: set<C>, min: nat, max: nat): Sched<C> {
    Sched(clients, [], {}, {}, {}, min, max, 0, 0, 0, 0)
  }

  lemma OneFewer<C>(s: set<C>, c: C)
    requires c in s
    ensures |s - {c}| == |s| - 1
  {
    assert s == (s - {c}) + {c};
  }

  lemma PostKeepsInv<C>(s: Sched<C>, c: C)
    requires s.Inv() && c in s.clients
    ensures Posted(s, c).Inv()
  {
    var t := Posted(s, c);
    if t.queue != s.queue {
      forall i, j | 0 <= i < j < |t.queue|
        ensures t.queue[i] != t.queue[j]
      {
        assert t.queue[i] == s.queue[i];
        assert t.queue[i] in s.queue;
      }
      forall d | d in t.pending
        ensures !t.Idle(d)
      {
        if d != c {
          assert d in s.pending && !s.Idle(d);
          assert d in s.queue ==> d in t.queue;
        }
      }
    }
  }

  lemma TakeKeepsInv<C>(s: Sched<C>)
    requires s.Inv() && s.queue != [] && s.AtTop()
    ensures Taken(s).Inv()
  {
    var t, c := Taken(s), s.queue[0];
    assert forall i :: 0 <= i < |t.queue| ==> t.queue[i] == s.queue[i + 1];
    assert s.queue == [c] + t.queue;
    assert c !in s.owned && |t.owned| == |s.owned| + 1;
    forall d | d in t.pending
      ensures !t.Idle(d)
    {
      assert d in s.pending && !s.Idle(d);
    }
  }

  lemma FinishKeepsInv<C>(s: Sched<C>, c: C, ret: int)
    requires s.Inv() && c in s.owned
    ensures Finished(s, c, ret).Inv()
  {
    var t := Finished(s, c, ret);
    OneFewer(s.owned, c);
    if t.queue != s.queue {
      forall i, j | 0 <= i < j < |t.queue|
        ensures t.queue[i] != t.queue[j]
      {
        assert t.queue[i] == s.queue[i] && t.queue[i] in s.queue;
      }
    }
    forall d | d in t.pending
      ensures !t.Idle(d)
    {
      assert d in s.pending && !s.Idle(d);
      assert d in s.queue ==> d in t.queue;
    }
  }

  lemma StepKeepsInv<C>(s: Sched<C>, e: Step<C>)
    requires s.Inv() && Enabled(s, e)
    ensures Apply(s, e).Inv()
  {
    match e
    case Post(c) => PostKeepsInv(s, c);
    case Take => TakeKeepsInv(s);
    case Finish(c, ret) => FinishKeepsInv(s, c, ret);
    case Start => SameClients(s, Apply(s, e));
    case Wake => SameClients(s, Apply(s, e));
    case Spurious => SameClients(s, Apply(s, e));
    case Sleep => SameClients(s, Apply(s, e));
    case Exit => SameClients(s, Apply(s, e));
  }

  /** Steps of daemons without a client in hand leave the clients where they are. */
  lemma SameClients<C>(s: Sched<C>, t: Sched<C>)
    requires s.Inv()
    requires t == s.(spawning := t.spawning, busy := t.busy, asleep := t.asleep, woken := t.woken)
    requires |t.owned| <= t.busy
    requires t.queue != [] && t.max >= 1 ==> t.busy + t.woken + t.spawning > 0
    ensures t.Inv()
  {
    assert forall c :: t.Idle(c) <==> s.Idle(c);
  }

  ghost predicate Run<C>(states: seq<Sched<C>>, steps: seq<Step<C>>, clients: set<C>, min: nat, max: nat) {
    && |states| == |steps| + 1
    && states[0] == Initial(clients, min, max)
    && forall i :: 0 <= i < |steps| ==> Enabled(states[i], steps[i]) && states[i + 1] == Apply(states[i], steps[i])
  }

  lemma {:induction false} RunKeepsInv<C>(
      states: seq<Sched<C>>, steps: seq<Step<C>>, clients: set<C>, min: nat, max: nat, k: nat)
    requires Run(states, steps, clients, min, max) && k < |states|
    ensures states[k].Inv() && states[k].clients == clients && states[k].min == min && states[k].max == max
  {
    if k > 0 {
      RunKeepsInv(states, steps, clients, min, max, k - 1);
      StepKeepsInv(states[k - 1], steps[k - 1]);
    }
  }

  /** In every reachable state each client is in exactly one place: idle, queued, with a daemon, or dead. */
  lemma ExactlyOnePlace<C>(
      states: seq<Sched<C>>, steps: seq<Step<C>>, clients: set<C>, min: nat, max: nat, k: nat, c: C)
    requires Run(states, steps, clients, min, max) && k < |states| && c in clients
    ensures var s := states[k];
            && !(c in s.queue && c in s.owned) && !(c in s.queue && c in s.dead) && !(c in s.owned && c in s.dead)
            && (s.Idle(c) <==> !(c in s.queue) && !(c in s.owned) && !(c in s.dead))
            && (c in s.queue ==> multiset(s.queue)[c] == 1)
  {
    RunKeepsInv(states, steps, clients, min, max, k);
    var s := states[k];
    if c in s.queue {
      var i :| 0 <= i < |s.queue| && s.queue[i] == c;
      assert s.queue == s.queue[..i] + [c] + s.queue[i + 1..];
      assert c !in s.queue[..i] && c !in s.queue[i + 1..];
    }
  }

  /** No lost event: after a post, whatever happens until the client is next taken, it is queued, owned or dead; and if
      it is owned when its daemon finishes without an error it goes back to the queue, not to idle. */
  lemma {:induction false} PostedStaysVisible<C>(
      states: seq<Sched<C>>, steps: seq<Step<C>>, clients: set<C>, min: nat, max: nat, i: nat, j: nat, c: C)
    requires Run(states, steps, clients, min, max) && i < j < |states| && steps[i] == Post(c)
    requires forall k :: i < k < j ==> !(steps[k] == Take && states[k].queue != [] && states[k].queue[0] == c)
    ensures c in states[j].pending && !states[j].Idle(c)
    ensures j < |steps| && steps[j].Finish? && steps[j].f == c && steps[j].ret >= 0 ==> c in states[j + 1].queue
  {
    RunKeepsInv(states, steps, clients, min, max, j);
    if j > i + 1 {
      PostedStaysVisible(states, steps, clients, min, max, i, j - 1, c);
    }
  }

  /** No lost wake-up: queued work always has a daemon that is awake, notified or being created. */
  lemma QueuedWorkHasADaemon<C>(
      states: seq<Sched<C>>, steps: seq<Step<C>>, clients: set<C>, min: nat, max: nat, k: nat)
    requires Run(states, steps, clients, min, max) && k < |states| && max >= 1
    ensures states[k].queue != [] ==> states[k].busy + states[k].woken + states[k].spawning > 0
  {
    RunKeepsInv(states, steps, clients, min, max, k);
  }

  /** With no daemons allowed, on the other hand, a post is never served. */
  lemma {:induction false} NoDaemonsNoService<C>(
      states: seq<Sched<C>>, steps: seq<Step<C>>, clients: set<C>, min: nat, k: nat)
    requires Run(states, steps, clients, min, 0) && k < |states|
    ensures var s := states[k]; s.busy == s.asleep == s.woken == s.spawning == 0 && s.owned == {} == s.dead
  {
    RunKeepsInv(states, steps, clients, min, 0, k);
    if k > 0 {
      NoDaemonsNoService(states, steps, clients, min, k - 1);
      RunKeepsInv(states, steps, clients, min, 0, k - 1);
    }
  }

  /** First come, first served: a step takes at most the head away and adds at most one client at the end. */
  lemma QueueIsFifo<C>(s: Sched<C>, e: Step<C>)
    requires s.Inv() && Enabled(s, e)
    ensures var t := Apply(s, e);
            exists more :: |more| <= 1 && t.queue == (if e.Take? then s.queue[1..] else s.queue) + more
  {
    var t := Apply(s, e);
    var base := if e.Take? then s.queue[1..] else s.queue;
    if t.queue == base {
      assert t.queue == base + [];
    } else {
      assert t.queue == base + [t.queue[|t.queue| - 1]];
    }
  }

  // ---- what decides where a client goes ----

  /** Step k takes c out of the queue. */
  ghost predicate Takes<C>(states: seq<Sched<C>>, steps: seq<Step<C>>, k: nat, c: C) {
    k < |steps| && k < |states| && steps[k].Take? && states[k].queue != [] && states[k].queue[0] == c
  }

  /** An event was posted to c, and c was not taken since. */
  ghost predicate PostedSinceTaken<C>(states: seq<Sched<C>>, steps: seq<Step<C>>, j: nat, c: C) {
    exists i: nat :: i < j && PostedAt(states, steps, i, j, c)
  }

  ghost predicate PostedAt<C>(states: seq<Sched<C>>, steps: seq<Step<C>>, i: nat, j: nat, c: C) {
    i < |steps| && steps[i] == Post(c) && forall k: nat :: i < k < j ==> !Takes(states, steps, k, c)
  }

  lemma PostedOn<C>(states: seq<Sched<C>>, steps: seq<Step<C>>, j: nat, c: C)
    requires j < |steps|
    ensures PostedSinceTaken(states, steps, j + 1, c) <==>
            steps[j] == Post(c) || (PostedSinceTaken(states, steps, j, c) && !Takes(states, steps, j, c))
  {
    if steps[j] == Post(c) {
      assert PostedAt(states, steps, j, j + 1, c);
    } else if PostedSinceTaken(states, steps, j, c) && !Takes(states, steps, j, c) {
      var i: nat :| i < j && PostedAt(states, steps, i, j, c);
      assert PostedAt(states, steps, i, j + 1, c);
    }
    if PostedSinceTaken(states, steps, j + 1, c) && steps[j] != Post(c) {
      var i: nat :| i < j + 1 && PostedAt(states, steps, i, j + 1, c);
      assert PostedAt(states, steps, i, j, c);
    }
  }

  /** In every interleaving the pending mark of a client says exactly that. */
  lemma {:induction false} PendingIff<C>(
      states: seq<Sched<C>>, steps: seq<Step<C>>, clients: set<C>, min: nat, max: nat, j: nat, c: C)
    requires Run(states, steps, clients, min, max) && j < |states|
    ensures c in states[j].pending <==> PostedSinceTaken(states, steps, j, c)
  {
    if j > 0 {
      PendingIff(states, steps, clients, min, max, j - 1, c);
      PostedOn(states, steps, j - 1, c);
      hide PostedSinceTaken;
    }
  }

  /** When a daemon puts a client down: an error drops it; without one it goes idle if it asked for nothing more and no
      event came in since it was taken, and back into the queue otherwise. */
  lemma FinishDecides<C>(
      states: seq<Sched<C>>, steps: seq<Step<C>>, clients: set<C>, min: nat, max: nat, j: nat, c: C, ret: int)
    requires Run(states, steps, clients, min, max) && j < |steps| && steps[j] == Finish(c, ret)
    ensures var t, posted := states[j + 1], PostedSinceTaken(states, steps, j, c);
            && c in states[j].owned && c !in t.owned
            && (c in t.dead <==> ret < 0)
            && (t.Idle(c) <==> ret == 0 && !posted)
            && (c in t.queue <==> ret > 0 || (ret == 0 && posted))
  {
    RunKeepsInv(states, steps, clients, min, max, j);
    PendingIff(states, steps, clients, min, max, j, c);
    hide PostedSinceTaken;
  }

  /** A queued client stays queued until it is taken. */
  lemma {:induction false} QueuedUntilTaken<C>(
      states: seq<Sched<C>>, steps: seq<Step<C>>, clients: set<C>, min: nat, max: nat, i: nat, j: nat, c: C)
    requires Run(states, steps, clients, min, max) && i <= j < |states| && c in states[i].queue
    requires forall k: nat :: i <= k < j ==> !Takes(states, steps, k, c)
    ensures c in states[j].queue && !states[j].Idle(c)
  {
    if i < j {
      QueuedUntilTaken(states, steps, clients, min, max, i, j - 1, c);
      var s, e := states[j - 1], steps[j - 1];
      RunKeepsInv(states, steps, clients, min, max, j - 1);
      assert !Takes(states, steps, j - 1, c);
      QueueIsFifo(s, e);
      assert e.Take? ==> s.queue == [s.queue[0]] + s.queue[1..];
      hide Apply;
    }
  }

  /** No lost work: a client that asked for another turn is in the queue, and never idle, until a daemon takes it. */
  lemma AskedForStaysQueued<C>(
      states: seq<Sched<C>>, steps: seq<Step<C>>, clients: set<C>, min: nat, max: nat, i: nat, j: nat, c: C, ret: int)
    requires Run(states, steps, clients, min, max) && i < j < |states| && steps[i] == Finish(c, ret) && ret > 0
    requires forall k: nat :: i < k < j ==> !Takes(states, steps, k, c)
    ensures c in states[j].queue && !states[j].Idle(c)
  {
    FinishDecides(states, steps, clients, min, max, i, c, ret);
    QueuedUntilTaken(states, steps, clients, min, max, i + 1, j, c);
  }

  // ---- how many daemons ----

  datatype Kind = Starts | Exits | Sleeps | Wakes | Takings | Finishes

  ghost function KindOf<C>(e: Step<C>): set<Kind> {
    match e
    case Start => {Starts}
    case Exit => {Exits}
    case Sleep => {Sleeps}
    case Wake => {Wakes}
    case Spurious => {Wakes}
    case Take => {Takings}
    case Finish(_, _) => {Finishes}
    case Post(_) => {}
  }

  /** How many of the first k steps are of a kind. */
  ghost function Count<C>(steps: seq<Step<C>>, k: nat, kind: Kind): nat
    requires k <= |steps|
  {
    if k == 0 then 0 else Count(steps, k - 1, kind) + One(kind in KindOf(steps[k - 1]))
  }

  /** The books are right in every interleaving: daemons are those that started and did not leave, ready are those that
      fell asleep and did not wake, and in hand are the clients taken and not put down. */
  lemma {:induction false} DaemonsAreCounted<C>(
      states: seq<Sched<C>>, steps: seq<Step<C>>, clients: set<C>, min: nat, max: nat, k: nat)
    requires Run(states, steps, clients, min, max) && k < |states|
    ensures var s := states[k];
            && s.Total() + Count(steps, k, Exits) == Count(steps, k, Starts)
            && s.Ready() + Count(steps, k, Wakes) == Count(steps, k, Sleeps)
            && |s.owned| + Count(steps, k, Finishes) == Count(steps, k, Takings)
  {
    if k > 0 {
      DaemonsAreCounted(states, steps, clients, min, max, k - 1);
      RunKeepsInv(states, steps, clients, min, max, k - 1);
      StepCounts(states[k - 1], steps[k - 1]);
      hide Apply, Enabled, KindOf;
    }
  }

  lemma StepCounts<C>(s: Sched<C>, e: Step<C>)
    requires s.Inv() && Enabled(s, e)
    ensures var t, kinds := Apply(s, e), KindOf(e);
            && t.Total() == s.Total() + One(Starts in kinds) - One(Exits in kinds)
            && t.Ready() == s.Ready() + One(Sleeps in kinds) - One(Wakes in kinds)
            && |t.owned| == |s.owned| + One(Takings in kinds) - One(Finishes in kinds)
  {
    hide Sched.Inv, Sched.Placed, Taken, Sched.Idle;
    if e.Finish? {
      OneFewer(s.owned, e.f);
    } else if e.Take? {
      TakenCounts(s);
    }
  }

  lemma TakenCounts<C>(s: Sched<C>)
    requires s.Inv() && s.queue != []
    ensures var t := Taken(s);
            t.busy == s.busy && t.asleep == s.asleep && t.woken == s.woken && |t.owned| == |s.owned| + 1
  {
    TakenFacts(s);
  }

  ghost function One(b: bool): nat { if b then 1 else 0 }

  /** In every interleaving at most one daemon more than the minimum waits, and one leaves only when that many do. */
  lemma {:induction false} ReadyIsBounded<C>(
      states: seq<Sched<C>>, steps: seq<Step<C>>, clients: set<C>, min: nat, max: nat, k: nat)
    requires Run(states, steps, clients, min, max) && k < |states|
    ensures states[k].Ready() <= min + 1
    ensures k < |steps| && steps[k].Exit? ==> states[k].Ready() == min + 1
    ensures k < |steps| && steps[k].Sleep? ==> states[k].Ready() <= min
  {
    RunKeepsInv(states, steps, clients, min, max, k);
    if k > 0 {
      ReadyIsBounded(states, steps, clients, min, max, k - 1);
    }
  }

  /** A thread is created only by an event for an idle client, while no daemon is waiting and fewer than the maximum
      have started; a waiting daemon is notified only for a client that enters an empty queue. */
  lemma PostCosts<C>(s: Sched<C>, e: Step<C>)
    requires s.Inv() && Enabled(s, e)
    ensures var t := Apply(s, e);
            && (t.spawning > s.spawning <==>
                  e.Post? && s.Idle(e.c) && s.asleep == 0 && s.woken == 0 && s.busy < s.max)
            && (t.woken > s.woken <==> e.Post? && s.Idle(e.c) && s.queue == [] && s.asleep > 0)
            && t.spawning <= s.spawning + 1 && t.woken <= s.woken + 1
  {
  }

  /** The maximum does not bound the daemons, as a thread counts only once it has started: two posts in a row create two
      threads where one is allowed. */
  lemma MaximumIsExceeded<C>(a: C, b: C) returns (states: seq<Sched<C>>, steps: seq<Step<C>>)
    requires a != b
    ensures Run(states, steps, {a, b}, 0, 1) && |steps| == 4 && states[4].busy == 2 > states[4].max
  {
    var s0 := Initial({a, b}, 0, 1);
    var s1 := Apply(s0, Post(a));
    var s2 := Apply(s1, Post(b));
    var s3 := Apply(s2, Start);
    states, steps := [s0, s1, s2, s3, Apply(s3, Start)], [Post(a), Post(b), Start, Start];
  }

  /** And the head is never more than two steps away from service: some daemon can finish, start, wake or take. */
  lemma HeadCanBeServed<C>(s: Sched<C>) returns (steps: seq<Step<C>>, t: Sched<C>)
    requires s.Inv() && s.queue != [] && s.max >= 1
    ensures 1 <= |steps| <= 2 && steps[|steps| - 1] == Take && Enabled(s, steps[0])
    ensures |steps| == 1 ==> t == Apply(s, steps[0])
    ensures |steps| == 2 ==> Enabled(Apply(s, steps[0]), Take) && t == Apply(Apply(s, steps[0]), Take)
    ensures t.Inv() && s.queue[0] in t.owned
  {
    var first: Step<C> := Take;
    if s.AtTop() {
      steps := [Take];
      t := Apply(s, Take);
    } else {
      if s.woken > 0 {
        first := Wake;
      } else if s.spawning > 0 {
        first := Start;
      } else {
        assert |s.owned| == s.busy > 0;
        var c :| c in s.owned;
        OneFewer(s.owned, c);
        first := Finish(c, 0);
      }
      StepKeepsInv(s, first);
      steps := [first, Take];
      t := Apply(Apply(s, first), Take);
      StepKeepsInv(Apply(s, first), Take);
    }
    if |steps| == 1 {
      StepKeepsInv(s, Take);
    }
  }

  // ---- the intrusive queue ----

  class EpollClient {
    var mEpollNext: EpollClient?
    var mEpollPending: bool

    constructor ()
      ensures mEpollNext == this && !mEpollPending
    {
      mEpollNext := this;
      mEpollPending := false;
    }
  }

  class EpollService {
    var mEpollHead: EpollClient?
    var mEpollTail: EpollClient?
    var mDaemonTotal: nat
    var mDaemonReady: nat
    const mDaemonMax: nat
    const mDaemonMin: nat
    var mCreated: nat  // threads created that have not entered the daemon loop
    var mSleepers: nat  // threads waiting on mCond
    var mNotified: nat  // threads notified that have not left the wait
    ghost var view: Sched<EpollClient>

    /** Linked through mEpollNext from head to the last client, whose link is null. */
    ghost predicate Linked(queue: seq<EpollClient>)
      reads this, queue
    {
      && (mEpollHead == if queue == [] then null else queue[0])
      && (queue != [] ==> mEpollTail == queue[|queue| - 1] && queue[|queue| - 1].mEpollNext == null)
      && (forall i :: 0 <= i < |queue| - 1 ==> queue[i].mEpollNext == queue[i + 1])
    }

    ghost predicate Counted()
      reads this
    {
      && view.min == mDaemonMin && view.max == mDaemonMax
      && mDaemonReady == view.Ready() && mDaemonTotal == view.Total()
      && mCreated == view.spawning && mSleepers == view.asleep && mNotified == view.woken
    }

    /** Self-linked means idle, and only that. */
    ghost predicate SelfLinked()
      reads this, view.clients
    {
      SelfLinkedBut(null)
    }

    /** The same with one client in transit. */
    ghost predicate SelfLinkedBut(x: EpollClient?)
      reads this, view.clients
    {
      && (forall c <- view.clients :: c != x ==> (c.mEpollNext == c <==> view.Idle(c)))
      && (forall c <- view.clients :: c.mEpollPending <==> c in view.pending)
    }

    ghost predicate Valid()
      reads this, view.clients, view.queue
    {
      view.Inv() && Counted() && Linked(view.queue) && SelfLinked()
    }

    constructor (max: nat, min: nat, ghost clients: set<EpollClient>)
      requires forall c <- clients :: c.mEpollNext == c && !c.mEpollPending
      ensures Valid() && view == Initial(clients, min, max)
    {
      mDaemonMax, mDaemonMin := max, min;
      mDaemonTotal, mDaemonReady := 0, 0;
      mCreated, mSleepers, mNotified := 0, 0, 0;
      mEpollHead, mEpollTail := null, null;
      view := Initial(clients, min, max);
    }

    /** Put a client at the end, as both postEpollEvent and a finishing daemon do. */
    method Append(client: EpollClient, ghost queue: seq<EpollClient>)
      requires Linked(queue) && client !in queue
      requires forall i, j :: 0 <= i < j < |queue| ==> queue[i] != queue[j]
      modifies this`mEpollHead, this`mEpollTail, client`mEpollNext, queue
      ensures Linked(queue + [client]) && client.mEpollNext == null
      ensures forall c <- queue :: c.mEpollNext == old(c.mEpollNext) || c.mEpollNext == client
      ensures forall c <- queue :: c.mEpollPending == old(c.mEpollPending)
    {
      client.mEpollNext := null;
      if mEpollHead == null {
        mEpollHead := client;
      } else {
        mEpollTail.mEpollNext := client;
      }
      mEpollTail := client;
    }

    method Notify()
      modifies this`mSleepers, this`mNotified
      ensures if old(mSleepers) > 0 then mSleepers == old(mSleepers) - 1 && mNotified == old(mNotified) + 1
              else mSleepers == old(mSleepers) && mNotified == old(mNotified)
    {
      if mSleepers > 0 {
        mSleepers, mNotified := mSleepers - 1, mNotified + 1;
      }
    }

    method PostEpollEvent(client: EpollClient)
      requires Valid() && client in view.clients
      modifies this, view.clients
      ensures Valid() && view == Posted(old(view), client)
    {
      hide Sched.Inv, Queued;
      QueueFacts(view);
      PostKeepsInv(view, client);
      client.mEpollPending := true;
      view := view.(pending := view.pending + {client});
      assert Linked(view.queue) && SelfLinked();
      if client.mEpollNext == client {
        QueueIdle(client);
      }
    }

    method QueueIdle(client: EpollClient)
      requires Counted() && Linked(view.queue) && SelfLinked() && view.Placed() && view.Idle(client)
      modifies this, view.clients
      ensures Counted() && Linked(view.queue) && SelfLinked() && view == Queued(old(view), client)
    {
      ghost var t := Queued(view, client);
      if mEpollHead == null {
        Notify();
      }
      if mDaemonReady == 0 && mDaemonTotal < mDaemonMax {
        mCreated := mCreated + 1;
      }
      view := view.(asleep := t.asleep, woken := t.woken, spawning := t.spawning);
      Relink(client);
    }

    /** Into the queue from nowhere: a client that was idle, or that a daemon has just put down. */
    method Relink(client: EpollClient)
      requires Linked(view.queue) && SelfLinkedBut(client) && view.Placed() && view.Idle(client)
      modifies this`mEpollHead, this`mEpollTail, this`view, view.clients
      ensures Linked(view.queue) && SelfLinked() && view == old(view).(queue := old(view).queue + [client])
    {
      ghost var s := view;
      Append(client, s.queue);
      view := s.(queue := s.queue + [client]);
      forall c | c in s.clients
        ensures c.mEpollNext == c <==> view.Idle(c)
        ensures c.mEpollPending <==> c in view.pending
      {
        if c == client {
          assert view.queue[|s.queue|] == client;
        } else if c in s.queue {
          assert c in view.queue;
        } else {
          assert c !in view.queue;
        }
      }
    }

    /** A new daemon enters its loop. */
    method DaemonStarted()
      requires Valid() && view.spawning > 0
      modifies this
      ensures Valid() && view == Apply(old(view), Start)
    {
      hide Sched.Inv;
      StepKeepsInv(view, Start);
      mCreated := mCreated - 1;
      mDaemonTotal := mDaemonTotal + 1;
      view := Apply(view, Start);
    }

    /** One pass over the top of the daemon loop, with the lock held: take the head, or leave, or go to sleep. */
    method DaemonTop() returns (client: EpollClient?, exit: bool)
      requires Valid() && view.AtTop()
      modifies this, view.clients
      ensures Valid()
      ensures old(view).queue != [] ==> !exit && client == old(view).queue[0] && view == Apply(old(view), Take)
      ensures old(view).queue == [] ==> client == null && (exit <==> old(view).Ready() > mDaemonMin)
      ensures old(view).queue == [] ==> view == if exit then Apply(old(view), Exit) else Apply(old(view), Sleep)
    {
      hide Sched.Inv, Taken;
      client := mEpollHead;
      exit := false;
      if client == null {
        if mDaemonReady > mDaemonMin {
          StepKeepsInv(view, Exit);
          mDaemonTotal := mDaemonTotal - 1;
          exit := true;
          view := Apply(view, Exit);
          return;
        }
        StepKeepsInv(view, Sleep);
        mDaemonReady := mDaemonReady + 1;
        mSleepers := mSleepers + 1;
        view := Apply(view, Sleep);
        return;
      }
      QueueFacts(view);
      TakeKeepsInv(view);
      TakeHead();
    }

    method TakeHead()
      requires Counted() && Linked(view.queue) && SelfLinked() && view.Placed() && view.queue != [] && view.AtTop()
      modifies this, view.clients
      ensures Counted() && Linked(view.queue) && SelfLinked() && view == Taken(old(view))
    {
      hide Sched.Placed;
      TakenFacts(view);
      ghost var s := view;
      var client := mEpollHead;
      mEpollHead := client.mEpollNext;
      client.mEpollPending := false;
      view := Taken(view);
      assert Linked(view.queue);
      forall c | c in s.clients
        ensures c.mEpollNext == c <==> view.Idle(c)
        ensures c.mEpollPending <==> c in view.pending
      {
      }
    }

    /** Back from the condition, notified or not. */
    method DaemonWoken(spurious: bool)
      requires Valid() && (if spurious then view.asleep > 0 else view.woken > 0)
      modifies this`mDaemonReady, this`mSleepers, this`mNotified, this`view
      ensures Valid() && view == Apply(old(view), if spurious then Spurious else Wake)
    {
      hide Sched.Inv;
      ghost var e: Step<EpollClient> := if spurious then Spurious else Wake;
      StepKeepsInv(view, e);
      mDaemonReady := mDaemonReady - 1;
      view := Apply(view, e);
      if spurious {
        mSleepers := mSleepers - 1;
      } else {
        mNotified := mNotified - 1;
      }
    }

    /** A daemon comes back from onEpollEvent with ret. */
    method DaemonDone(client: EpollClient, ret: int)
      requires Valid() && client in view.owned
      modifies this, view.clients
      ensures Valid() && view == Finished(old(view), client, ret)
    {
      hide Sched.Inv;
      QueueFacts(view);
      FinishKeepsInv(view, client, ret);
      if ret < 0 {
        view := Finished(view, client, ret);
      } else {
        PutDown(client, ret);
      }
    }

    method PutDown(client: EpollClient, ret: nat)
      requires Counted() && Linked(view.queue) && SelfLinked() && view.Placed() && client in view.owned
      modifies this`mEpollHead, this`mEpollTail, this`view, view.clients
      ensures Counted() && Linked(view.queue) && SelfLinked() && view == Finished(old(view), client, ret)
    {
      view := view.(owned := view.owned - {client});
      assert SelfLinkedBut(client) && view.Placed() && view.Idle(client);
      if ret > 0 || client.mEpollPending {
        Relink(client);
      } else {
        client.mEpollNext := client;
      }
    }
  }

  /** Taking the head moves that one client and shifts the rest of the queue. */
  lemma TakenFacts<C>(s: Sched<C>)
    requires s.Placed() && s.queue != []
    ensures var t, c := Taken(s), s.queue[0];
            && (forall i :: 0 <= i < |t.queue| ==> t.queue[i] == s.queue[i + 1])
            && c in s.clients && !s.Idle(c) && !t.Idle(c) && c !in t.pending && c !in t.queue && c !in s.owned
            && |t.owned| == |s.owned| + 1
            && (forall d :: d != c ==> (t.Idle(d) <==> s.Idle(d)) && (d in t.pending <==> d in s.pending))
  {
    var t, c := Taken(s), s.queue[0];
    assert s.queue == [c] + t.queue;
    assert forall i :: 0 <= i < |t.queue| ==> t.queue[i] == s.queue[i + 1];
  }

  lemma QueueFacts<C>(s: Sched<C>)
    requires s.Inv()
    ensures s.Placed()
  {
  }
}
