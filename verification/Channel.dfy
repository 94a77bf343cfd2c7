/** The channel protocol: any number of threads sending and receiving through one bounded ring under
    a mutex and two condition variables. Each critical section, up to its wait or its unlock, is one
    step. A signal wakes at least one sleeper if there is one; wake-ups may also be spurious; a woken
    thread re-tests its condition in a later step, after any number of other threads' steps. */
module Channel {
  import opened ChannelRing

  datatype Thread<T> =
    | Idle
    | Sending(msg: T)      // called send, has not had the lock yet
    | SendAsleep(msg: T)
    | SendWoken(msg: T)
    | Receiving
    | RecvAsleep
    | RecvWoken

  datatype Chan<T> = Chan(ring: Ring<T>, closed: bool, threads: seq<Thread<T>>, accepted: seq<T>, received: seq<T>)

  datatype Kind = Running | SendSleeper | SendReady | RecvSleeper | RecvReady

  function KindOf<T>(th: Thread<T>): Kind {
    match th
    case SendAsleep(_) => SendSleeper
    case SendWoken(_) => SendReady
    case RecvAsleep => RecvSleeper
    case RecvWoken => RecvReady
    case _ => Running
  }

  /** How many threads are of a kind. */
  function Tally<T>(th: seq<Thread<T>>, k: Kind): nat {
    if th == [] then 0 else (if KindOf(th[0]) == k then 1 else 0) + Tally(th[1..], k)
  }

  function Wake<T>(th: Thread<T>): Thread<T> {
    match th
    case SendAsleep(m) => SendWoken(m)
    case RecvAsleep => RecvWoken
    case _ => th
  }

  /** A broadcast to both condition variables. */
  function WakeEvery<T>(th: seq<Thread<T>>): (r: seq<Thread<T>>)
    ensures |r| == |th| && forall t :: 0 <= t < |th| ==> r[t] == Wake(th[t])
  {
    seq(|th|, t requires 0 <= t < |th| => Wake(th[t]))
  }

  datatype Step<T> =
    | CallSend(t: nat, msg: T)
    | CallRecv(t: nat)
    | SendTurn(t: nat, hit: nat)   // `hit` is the sleeper the signal wakes, when there is one
    | RecvTurn(t: nat, hit: nat)
    | Close
    | Spurious(t: nat)             // also what a signal that wakes more than one does

  /** A signal to the sleepers of kind `k`: one of them, chosen freely, or nobody if none sleeps. */
  predicate CanHit<T>(th: seq<Thread<T>>, k: Kind, hit: nat) {
    Tally(th, k) > 0 ==> hit < |th| && KindOf(th[hit]) == k
  }

  function Signal<T>(th: seq<Thread<T>>, k: Kind, hit: nat): (r: seq<Thread<T>>)
    requires CanHit(th, k, hit)
    ensures |r| == |th|
  {
    if Tally(th, k) > 0 then th[hit := Wake(th[hit])] else th
  }

  ghost predicate Enabled<T>(c: Chan<T>, step: Step<T>) {
    RingOk(c.ring) &&
    match step
    case CallSend(t, _) => t < |c.threads| && c.threads[t].Idle?
    case CallRecv(t) => t < |c.threads| && c.threads[t].Idle?
    case SendTurn(t, hit) =>
      t < |c.threads| && (c.threads[t].Sending? || c.threads[t].SendWoken?) && CanHit(c.threads, RecvSleeper, hit)
    case RecvTurn(t, hit) =>
      t < |c.threads| && (c.threads[t].Receiving? || c.threads[t].RecvWoken?) && CanHit(c.threads, SendSleeper, hit)
    case Close => true
    case Spurious(t) => t < |c.threads|
  }

  ghost function Do<T>(c: Chan<T>, step: Step<T>): Chan<T>
    requires Enabled(c, step)
  {
    var th := c.threads;
    match step
    case CallSend(t, msg) => c.(threads := th[t := Sending(msg)])
    case CallRecv(t) => c.(threads := th[t := Receiving])
    case SendTurn(t, hit) =>
      if c.ring.len == |c.ring.slots| && !c.closed then c.(threads := th[t := SendAsleep(th[t].msg)])
      else if c.closed then c.(threads := th[t := Idle])
      else c.(ring := Put(c.ring, th[t].msg), threads := Signal(th, RecvSleeper, hit)[t := Idle], accepted := c.accepted + [th[t].msg])
    case RecvTurn(t, hit) =>
      if c.ring.len == 0 && !c.closed then c.(threads := th[t := RecvAsleep])
      else if c.ring.len == 0 then c.(threads := th[t := Idle])
      else c.(ring := Take(c.ring).1, threads := Signal(th, SendSleeper, hit)[t := Idle], received := c.received + [Take(c.ring).0])
    case Close => c.(closed := true, threads := WakeEvery(th))
    case Spurious(t) => c.(threads := th[t := Wake(th[t])])
  }

  /** `chan_new`, with `n` threads about to use the channel. */
  ghost predicate Init<T>(c: Chan<T>) {
    && RingOk(c.ring) && c.ring.len == 0 && !c.closed
    && (forall t :: 0 <= t < |c.threads| ==> c.threads[t].Idle?)
    && c.accepted == [] && c.received == []
  }

  ghost predicate IsRun<T>(c: Chan<T>, steps: seq<Step<T>>)
    decreases |steps|, 0
  {
    steps == [] || (IsRun(c, steps[..|steps| - 1]) && Enabled(After(c, steps[..|steps| - 1]), steps[|steps| - 1]))
  }

  ghost function After<T>(c: Chan<T>, steps: seq<Step<T>>): Chan<T>
    requires IsRun(c, steps)
    decreases |steps|, 1
  {
    if steps == [] then c else Do(After(c, steps[..|steps| - 1]), steps[|steps| - 1])
  }

  // ----- what every step keeps -----

  /** While a receiver sleeps there are at least as many woken receivers as queued messages. */
  ghost predicate RecvCovered<T>(c: Chan<T>) {
    Tally(c.threads, RecvSleeper) > 0 ==> Tally(c.threads, RecvReady) >= c.ring.len && !c.closed
  }

  /** While a sender sleeps there are at least as many woken senders as free slots. */
  ghost predicate SendCovered<T>(c: Chan<T>) {
    Tally(c.threads, SendSleeper) > 0 ==> Tally(c.threads, SendReady) >= |c.ring.slots| - c.ring.len && !c.closed
  }

  ghost predicate Inv<T>(c: Chan<T>) {
    && RingOk(c.ring)
    && c.received + Queue(c.ring) == c.accepted
    && RecvCovered(c)
    && SendCovered(c)
  }

  /** Replacing one thread's state moves one unit between two tallies. */
  lemma {:induction false} SetTally<T>(th: seq<Thread<T>>, t: nat, x: Thread<T>, k: Kind)
    requires t < |th|
    ensures Tally(th[t := x], k) + (if KindOf(th[t]) == k then 1 else 0) == Tally(th, k) + (if KindOf(x) == k then 1 else 0)
  {
    if t > 0 {
      SetTally(th[1..], t - 1, x, k);
      assert th[t := x][1..] == th[1..][t - 1 := x];
    } else {
      assert th[t := x][1..] == th[1..];
    }
  }

  lemma SetTallies<T>(th: seq<Thread<T>>, t: nat, x: Thread<T>)
    requires t < |th|
    ensures forall k :: Tally(th[t := x], k) + (if KindOf(th[t]) == k then 1 else 0) == Tally(th, k) + (if KindOf(x) == k then 1 else 0)
  {
    forall k {
      SetTally(th, t, x, k);
    }
  }

  lemma {:induction false} TallyZero<T>(th: seq<Thread<T>>, k: Kind)
    ensures Tally(th, k) == 0 <==> forall t :: 0 <= t < |th| ==> KindOf(th[t]) != k
  {
    if th != [] {
      TallyZero(th[1..], k);
      assert forall t :: 0 < t < |th| ==> th[t] == th[1..][t - 1];
      assert forall t :: 0 <= t < |th[1..]| ==> th[1..][t] == th[t + 1];
    }
  }

  lemma StepKeepsInv<T>(c: Chan<T>, step: Step<T>)
    requires Inv(c) && Enabled(c, step)
    ensures Inv(Do(c, step))
  {
    match step
    case CallSend(t, msg) => SetTallies(c.threads, t, Sending(msg));
    case CallRecv(t) => SetTallies(c.threads, t, Receiving);
    case SendTurn(t, hit) => SendTurnKeepsInv(c, t, hit);
    case RecvTurn(t, hit) => RecvTurnKeepsInv(c, t, hit);
    case Close =>
      TallyZero(WakeEvery(c.threads), RecvSleeper);
      TallyZero(WakeEvery(c.threads), SendSleeper);
    case Spurious(t) => SetTallies(c.threads, t, Wake(c.threads[t]));
  }

  lemma SendTurnKeepsInv<T>(c: Chan<T>, t: nat, hit: nat)
    requires Inv(c) && Enabled(c, SendTurn(t, hit))
    ensures Inv(Do(c, SendTurn(t, hit)))
  {
    if c.ring.len == |c.ring.slots| && !c.closed {
      SetTallies(c.threads, t, SendAsleep(c.threads[t].msg));
    } else if c.closed {
      SetTallies(c.threads, t, Idle);
    } else {
      if Tally(c.threads, RecvSleeper) > 0 {
        SetTallies(c.threads, hit, Wake(c.threads[hit]));
      }
      SetTallies(Signal(c.threads, RecvSleeper, hit), t, Idle);
      PutAppends(c.ring, c.threads[t].msg);
    }
  }

  lemma RecvTurnKeepsInv<T>(c: Chan<T>, t: nat, hit: nat)
    requires Inv(c) && Enabled(c, RecvTurn(t, hit))
    ensures Inv(Do(c, RecvTurn(t, hit)))
  {
    if c.ring.len == 0 && !c.closed {
      SetTallies(c.threads, t, RecvAsleep);
    } else if c.ring.len == 0 {
      SetTallies(c.threads, t, Idle);
    } else {
      if Tally(c.threads, SendSleeper) > 0 {
        SetTallies(c.threads, hit, Wake(c.threads[hit]));
      }
      SetTallies(Signal(c.threads, SendSleeper, hit), t, Idle);
      TakeRemoves(c.ring);
      assert c.received + Queue(c.ring) == c.received + [Take(c.ring).0] + Queue(Take(c.ring).1);
    }
  }

  lemma {:induction false} RunKeepsInv<T>(c: Chan<T>, steps: seq<Step<T>>)
    requires Init(c) && IsRun(c, steps)
    ensures Inv(After(c, steps))
    decreases |steps|
  {
    if steps == [] {
      assert Queue(c.ring) == [];
      TallyZero(c.threads, RecvSleeper);
      TallyZero(c.threads, SendSleeper);
    } else {
      RunKeepsInv(c, steps[..|steps| - 1]);
      StepKeepsInv(After(c, steps[..|steps| - 1]), steps[|steps| - 1]);
    }
  }

  // ----- the promises -----

  /** Over every run the messages received, followed by those queued, are the messages accepted, in
      order; and the queue never exceeds the capacity. */
  lemma Conserved<T>(c: Chan<T>, steps: seq<Step<T>>)
    requires Init(c) && IsRun(c, steps)
    ensures var d := After(c, steps);
            RingOk(d.ring) && d.received + Queue(d.ring) == d.accepted && |Queue(d.ring)| <= |d.ring.slots|
  {
    RunKeepsInv(c, steps);
  }

  ghost predicate Some<T>(c: Chan<T>, k: Kind) {
    exists t :: 0 <= t < |c.threads| && KindOf(c.threads[t]) == k
  }

  /** No waiter is stranded: a sleeping receiver with messages queued, or a sleeping sender with
      slots free, means one of its kind has already been woken. */
  lemma NobodyStranded<T>(c: Chan<T>, steps: seq<Step<T>>)
    requires Init(c) && IsRun(c, steps)
    ensures var d := After(c, steps);
            && (Some(d, RecvSleeper) && d.ring.len > 0 ==> Some(d, RecvReady))
            && (Some(d, SendSleeper) && d.ring.len < |d.ring.slots| ==> Some(d, SendReady))
  {
    RunKeepsInv(c, steps);
    var d := After(c, steps);
    TallyZero(d.threads, RecvSleeper);
    TallyZero(d.threads, RecvReady);
    TallyZero(d.threads, SendSleeper);
    TallyZero(d.threads, SendReady);
  }

  /** Senders and receivers never all sleep: with both kinds asleep, somebody is awake to run. */
  lemma NeverAllAsleep<T>(c: Chan<T>, steps: seq<Step<T>>)
    requires Init(c) && IsRun(c, steps)
    ensures var d := After(c, steps);
            Some(d, RecvSleeper) && Some(d, SendSleeper) ==> Some(d, RecvReady) || Some(d, SendReady)
  {
    RunKeepsInv(c, steps);
    NobodyStranded(c, steps);
  }

  /** After close nobody sleeps. */
  lemma ClosedMeansAwake<T>(c: Chan<T>, steps: seq<Step<T>>)
    requires Init(c) && IsRun(c, steps)
    ensures var d := After(c, steps);
            d.closed ==> !Some(d, RecvSleeper) && !Some(d, SendSleeper)
  {
  }

  /** When no call in progress can move, the channel is open and either every call in progress is a
      receive on an empty channel or every one is a send on a full one. */
  lemma OnlyRealWaits<T>(c: Chan<T>, steps: seq<Step<T>>)
    requires Init(c) && IsRun(c, steps)
    requires forall t :: 0 <= t < |After(c, steps).threads| ==>
               var th := After(c, steps).threads[t]; th.Idle? || th.RecvAsleep? || th.SendAsleep?
    ensures var d := After(c, steps);
            || (!Some(d, RecvSleeper) && !Some(d, SendSleeper))
            || (!d.closed && d.ring.len == 0 && !Some(d, SendSleeper))
            || (!d.closed && d.ring.len == |d.ring.slots| && !Some(d, RecvSleeper))
  {
    RunKeepsInv(c, steps);
    NobodyStranded(c, steps);
    ClosedMeansAwake(c, steps);
    var d := After(c, steps);
    assert !Some(d, RecvReady) && !Some(d, SendReady);
  }

  // ----- what a call answers -----

  /** The thread that a step runs. */
  function Actor<T>(step: Step<T>): int {
    match step
    case CallSend(t, _) => t
    case CallRecv(t) => t
    case SendTurn(t, _) => t
    case RecvTurn(t, _) => t
    case Close => -1
    case Spurious(t) => t
  }

  /** The message of a send in progress. */
  function Carried<T>(th: Thread<T>): seq<T> {
    match th
    case Sending(m) => [m]
    case SendAsleep(m) => [m]
    case SendWoken(m) => [m]
    case _ => []
  }

  /** A receive's turn: with a message queued it ends and gets the oldest, open or closed; on an empty
      channel it ends with nothing once the channel is closed, and sleeps otherwise. */
  lemma RecvAnswers<T>(c: Chan<T>, t: nat, hit: nat)
    requires Enabled(c, RecvTurn(t, hit))
    ensures var d, q := Do(c, RecvTurn(t, hit)), Queue(c.ring);
            && RingOk(d.ring) && |d.ring.slots| == |c.ring.slots| && d.accepted == c.accepted && d.closed == c.closed
            && (q != [] ==> d.threads[t].Idle? && d.received == c.received + [q[0]] && Queue(d.ring) == q[1..])
            && (q == [] ==> d.received == c.received && Queue(d.ring) == q)
            && (d.threads[t].Idle? && d.received == c.received <==> c.closed && q == [])
            && (d.threads[t].RecvAsleep? <==> !c.closed && q == [])
  {
    if c.ring.len > 0 {
      TakeRemoves(c.ring);
      assert (c.received + [Queue(c.ring)[0]])[|c.received|] == Queue(c.ring)[0];
    }
  }

  /** A send's turn: on a closed channel the message is refused; on an open one it is queued behind all
      others when a slot is free, and the thread sleeps, keeping it, when none is. */
  lemma SendAnswers<T>(c: Chan<T>, t: nat, hit: nat)
    requires Enabled(c, SendTurn(t, hit))
    ensures var d, q, msg := Do(c, SendTurn(t, hit)), Queue(c.ring), Carried(c.threads[t]);
            && RingOk(d.ring) && |d.ring.slots| == |c.ring.slots| && d.received == c.received && d.closed == c.closed
            && (!c.closed && |q| < |c.ring.slots| ==> d.threads[t].Idle? && d.accepted == c.accepted + msg && Queue(d.ring) == q + msg && |msg| == 1)
            && (c.closed || |q| == |c.ring.slots| ==> d.accepted == c.accepted && Queue(d.ring) == q)
            && (d.threads[t].Idle? && d.accepted == c.accepted <==> c.closed)
            && (d.threads[t].SendAsleep? <==> !c.closed && |q| == |c.ring.slots|)
            && (d.threads[t].SendAsleep? ==> Carried(d.threads[t]) == msg)
  {
    if !c.closed && c.ring.len < |c.ring.slots| {
      PutAppends(c.ring, c.threads[t].msg);
      assert (c.accepted + [c.threads[t].msg])[|c.accepted|] == c.threads[t].msg;
    }
  }

  /** Starting a call, closing, and waking up queue and deliver nothing; a send starts with its message. */
  lemma CallsOnlyStart<T>(c: Chan<T>, step: Step<T>)
    requires Enabled(c, step) && !step.SendTurn? && !step.RecvTurn?
    ensures var d := Do(c, step);
            && d.ring == c.ring && d.accepted == c.accepted && d.received == c.received && d.closed == (c.closed || step.Close?)
            && (step.CallSend? ==> d.threads[step.t] == Sending(step.msg))
            && (step.CallRecv? ==> d.threads[step.t] == Receiving)
            && (step.Spurious? ==> d.threads[step.t] == Wake(c.threads[step.t]))
  {
  }

  /** No step does more to another thread than wake it; a woken sender keeps its message. */
  lemma OthersOnlyWoken<T>(c: Chan<T>, step: Step<T>)
    requires Enabled(c, step)
    ensures var d := Do(c, step);
            |d.threads| == |c.threads|
            && forall u :: 0 <= u < |c.threads| && u != Actor(step) ==>
                 (d.threads[u] == c.threads[u] || d.threads[u] == Wake(c.threads[u])) && Carried(d.threads[u]) == Carried(c.threads[u])
  {
  }

  /** A call in progress can take its turn exactly when its thread is not asleep. */
  lemma TurnIff<T>(c: Chan<T>, t: nat)
    requires RingOk(c.ring) && t < |c.threads|
    ensures (exists hit :: Enabled(c, SendTurn(t, hit))) <==> Carried(c.threads[t]) != [] && !c.threads[t].SendAsleep?
    ensures (exists hit :: Enabled(c, RecvTurn(t, hit))) <==> c.threads[t].Receiving? || c.threads[t].RecvWoken?
  {
    var r := Sleeper(c.threads, RecvSleeper);
    var s := Sleeper(c.threads, SendSleeper);
    assert Enabled(c, SendTurn(t, r)) <==> Carried(c.threads[t]) != [] && !c.threads[t].SendAsleep?;
    assert Enabled(c, RecvTurn(t, s)) <==> c.threads[t].Receiving? || c.threads[t].RecvWoken?;
  }

  /** A thread a signal may wake. */
  lemma Sleeper<T>(th: seq<Thread<T>>, k: Kind) returns (hit: nat)
    ensures CanHit(th, k, hit)
  {
    hit := 0;
    TallyZero(th, k);
    if Tally(th, k) > 0 {
      hit :| hit < |th| && KindOf(th[hit]) == k;
    }
  }

  /** Over a run the channel is closed exactly once somebody has closed it. */
  lemma {:induction false} ClosedIff<T>(c: Chan<T>, steps: seq<Step<T>>)
    requires Init(c) && IsRun(c, steps)
    ensures After(c, steps).closed <==> Close in steps
    decreases |steps|
  {
    if steps != [] {
      var front, last := steps[..|steps| - 1], steps[|steps| - 1];
      ClosedIff(c, front);
      assert steps == front + [last];
      if last.SendTurn? {
        SendAnswers(After(c, front), last.t, last.hit);
      } else if last.RecvTurn? {
        RecvAnswers(After(c, front), last.t, last.hit);
      }
    }
  }

  /** A receive that ends with nothing ends a receiving loop rightly: somebody closed the channel, and
      every message ever accepted has been received, in order. */
  lemma NothingMeansAll<T>(c: Chan<T>, steps: seq<Step<T>>, t: nat, hit: nat)
    requires Init(c) && IsRun(c, steps) && Enabled(After(c, steps), RecvTurn(t, hit))
    requires var d := Do(After(c, steps), RecvTurn(t, hit)); d.threads[t].Idle? && d.received == After(c, steps).received
    ensures Close in steps && After(c, steps).received == After(c, steps).accepted
  {
    RecvAnswers(After(c, steps), t, hit);
    ClosedIff(c, steps);
    Conserved(c, steps);
  }
}
