// The ticket spinlock: src/spinlock.rs. Threads interleave at every atomic operation, and both
// counters are 32 bits wide and wrap.

module TicketLock {

  const WRAP := 0x1_0000_0000

  /** A counter's value in its 32 bits. */
  function Wrap(n: nat): nat { n % WRAP }

  lemma WrapNext(n: nat)
    ensures Wrap(Wrap(n) + 1) == Wrap(n + 1)
  {
  }

  /** Fewer than 2^32 apart, counters are equal only if their low 32 bits differ nowhere. */
  lemma WrapEqual(n: nat, k: nat)
    requires k < WRAP && Wrap(n + k) == Wrap(n)
    ensures k == 0
  {
  }

  /** Where a thread is in lock, try_lock or the guard's drop. */
  datatype Pc =
    | Idle
    | Waiting(ticket: nat)      // spinning until `next` is its ticket
    | Holding                   // has the guard
    | Loaded(current: nat)      // try_lock, after loading `ticket`
    | Comparing(current: nat)   // try_lock, after finding `next` equal

  datatype Lock = Lock(ticket: nat, next: nat, pcs: seq<Pc>)

  function Init(threads: nat): Lock { Lock(0, 0, seq(threads, _ => Idle)) }

  datatype Step = Request(thread: nat) | TryRequest(thread: nat) | Advance(thread: nat)

  predicate InState(s: Lock, step: Step, pc: Pc) { step.thread < |s.pcs| && s.pcs[step.thread] == pc }

  /** The step takes a ticket: lock's fetch_add, or a successful compare_exchange. */
  predicate Takes(s: Lock, step: Step) {
    || (step.Request? && InState(s, step, Idle))
    || (step.Advance? && InState(s, step, Comparing(s.ticket)))
  }

  /** The step leaves the spin loop with the guard. */
  predicate Grants(s: Lock, step: Step) { step.Advance? && InState(s, step, Waiting(s.next)) }

  predicate Drops(s: Lock, step: Step) { step.Advance? && InState(s, step, Holding) }

  function At(s: Lock, t: nat, pc: Pc): Lock
    requires t < |s.pcs|
  {
    s.(pcs := s.pcs[t := pc])
  }

  /** One atomic step of one thread. */
  function Do(s: Lock, step: Step): Lock {
    if step.thread >= |s.pcs| then s
    else
      var t := step.thread;
      match (step, s.pcs[t])
      case (Request(_), Idle) => At(s, t, Waiting(s.ticket)).(ticket := Wrap(s.ticket + 1))
      case (TryRequest(_), Idle) => At(s, t, Loaded(s.ticket))
      case (Advance(_), Waiting(k)) => if s.next == k then At(s, t, Holding) else s
      case (Advance(_), Holding) => At(s, t, Idle).(next := Wrap(s.next + 1))
      case (Advance(_), Loaded(c)) => At(s, t, if c == s.next then Comparing(c) else Idle)
      case (Advance(_), Comparing(c)) =>
        if s.ticket == c then At(s, t, Waiting(c)).(ticket := Wrap(c + 1)) else At(s, t, Idle)
      case _ => s
  }

  // ---- The lock as a queue ----

  /** The reference: threads wait in a queue, and `served` of them have come and gone. */
  datatype Queue = Queue(served: nat, waiting: seq<nat>)

  function QueueDo(q: Queue, s: Lock, step: Step): Queue {
    if Takes(s, step) then q.(waiting := q.waiting + [step.thread])
    else if Drops(s, step) && q.waiting != [] then Queue(q.served + 1, q.waiting[1..])
    else q
  }

  predicate InLine(pc: Pc) { pc.Waiting? || pc.Holding? }

  /** The counters are the queue's, modulo 2^32; the i-th in line has the i-th ticket from `next`
      on, and only the first can hold the lock. */
  ghost predicate Rel(s: Lock, q: Queue) {
    && s.next == Wrap(q.served)
    && s.ticket == Wrap(q.served + |q.waiting|)
    && (forall i, j :: 0 <= i < j < |q.waiting| ==> q.waiting[i] != q.waiting[j])
    && (forall t :: 0 <= t < |s.pcs| && InLine(s.pcs[t]) ==> t in q.waiting)
    && (forall i :: 0 <= i < |q.waiting| ==>
          && q.waiting[i] < |s.pcs|
          && (s.pcs[q.waiting[i]] == Waiting(Wrap(q.served + i)) || (i == 0 && s.pcs[q.waiting[i]] == Holding)))
  }

  lemma {:induction false} Pigeonhole(s: seq<nat>, n: nat)
    requires forall i, j :: 0 <= i < j < |s| ==> s[i] != s[j]
    requires forall i :: 0 <= i < |s| ==> s[i] < n
    ensures |s| <= n
  {
    if s == [] {
      return;
    }
    assert s[0] < n;
    if exists i :: 0 <= i < |s| && s[i] == n - 1 {
      var i :| 0 <= i < |s| && s[i] == n - 1;
      Pigeonhole(s[..i] + s[i + 1..], n - 1);
    } else {
      Pigeonhole(s, n - 1);
    }
  }

  lemma LineIsShort(s: Lock, q: Queue)
    requires Rel(s, q)
    ensures |q.waiting| <= |s.pcs|
  {
    Pigeonhole(q.waiting, |s.pcs|);
  }

  /** With at most 2^32 threads, a thread that leaves the spin loop is the first in line. */
  lemma GrantIsFirst(s: Lock, q: Queue, step: Step)
    requires Rel(s, q) && |s.pcs| <= WRAP && Grants(s, step)
    ensures q.waiting != [] && q.waiting[0] == step.thread
  {
    hide Wrap;
    LineIsShort(s, q);
    assert InLine(s.pcs[step.thread]);
    var i :| 0 <= i < |q.waiting| && q.waiting[i] == step.thread;
    WrapEqual(q.served, i);
  }

  /** Every step of the lock is a step of the queue. */
  lemma DoKeeps(s: Lock, q: Queue, step: Step)
    requires Rel(s, q) && |s.pcs| <= WRAP
    ensures Rel(Do(s, step), QueueDo(q, s, step)) && |Do(s, step).pcs| == |s.pcs|
    ensures Drops(s, step) ==> q.waiting != [] && q.waiting[0] == step.thread
  {
    hide Wrap;
    if Grants(s, step) {
      GrantIsFirst(s, q, step);
    } else if Drops(s, step) {
      assert InLine(s.pcs[step.thread]);
      DropKeeps(s, q, step);
    } else if Takes(s, step) {
      TakeKeeps(s, q, step);
    }
  }

  lemma HolderIsFirst(s: Lock, q: Queue, step: Step)
    requires Rel(s, q) && Drops(s, step) && step.thread in q.waiting
    ensures q.waiting[0] == step.thread && s.pcs[step.thread] == Holding && step.Advance?
  {
    hide Wrap;
  }

  lemma DropKeeps(s: Lock, q: Queue, step: Step)
    requires Rel(s, q) && Drops(s, step) && step.thread in q.waiting
    ensures q.waiting[0] == step.thread && Rel(Do(s, step), QueueDo(q, s, step))
  {
    hide Wrap;
    HolderIsFirst(s, q, step);
    WrapNext(q.served);
    var s', q' := Do(s, step), QueueDo(q, s, step);
    assert s' == At(s, step.thread, Idle).(next := Wrap(s.next + 1)) && q' == Queue(q.served + 1, q.waiting[1..]);
    DropRel(s, q, step.thread, s', q');
  }

  /** The head of the line has left it. */
  ghost predicate Left(s: Lock, q: Queue, first: nat, s': Lock, q': Queue) {
    && q.waiting != [] && q.waiting[0] == first < |s.pcs| && s.pcs[first] == Holding
    && s' == At(s, first, Idle).(next := Wrap(s.next + 1)) && q' == Queue(q.served + 1, q.waiting[1..])
  }

  lemma DropRel(s: Lock, q: Queue, first: nat, s': Lock, q': Queue)
    requires Rel(s, q) && Left(s, q, first, s', q') && Wrap(s.next + 1) == Wrap(q.served + 1)
    ensures Rel(s', q')
  {
    hide Wrap;
    forall t: nat | t < |s'.pcs| && InLine(s'.pcs[t]) ensures t in q'.waiting {
      DropLine(s, q, first, s', q', t);
    }
    forall i | 0 <= i < |q'.waiting|
      ensures q'.waiting[i] < |s'.pcs| && s'.pcs[q'.waiting[i]] == Waiting(Wrap(q'.served + i))
    {
      DropTicket(s, q, first, s', q', i);
    }
  }

  lemma DropLine(s: Lock, q: Queue, first: nat, s': Lock, q': Queue, t: nat)
    requires Rel(s, q) && Left(s, q, first, s', q') && t < |s'.pcs| && InLine(s'.pcs[t])
    ensures t in q'.waiting
  {
    hide Wrap;
    assert t != first && InLine(s.pcs[t]);
    var i :| 0 <= i < |q.waiting| && q.waiting[i] == t;
    assert q'.waiting[i - 1] == t;
  }

  lemma DropTicket(s: Lock, q: Queue, first: nat, s': Lock, q': Queue, i: nat)
    requires Rel(s, q) && Left(s, q, first, s', q') && i < |q'.waiting|
    ensures q'.waiting[i] < |s'.pcs| && s'.pcs[q'.waiting[i]] == Waiting(Wrap(q'.served + i))
  {
    hide Wrap;
    assert q'.waiting[i] == q.waiting[i + 1] != first;
    assert q'.served + i == q.served + (i + 1);
  }

  lemma TakeKeeps(s: Lock, q: Queue, step: Step)
    requires Rel(s, q) && Takes(s, step)
    ensures Rel(Do(s, step), QueueDo(q, s, step))
  {
    hide Wrap;
    WrapNext(q.served + |q.waiting|);
    var s', q' := Do(s, step), QueueDo(q, s, step);
    assert q'.waiting[|q.waiting|] == step.thread;
    forall t | 0 <= t < |s'.pcs| && InLine(s'.pcs[t]) ensures t in q'.waiting {
      assert t == step.thread || t in q.waiting;
    }
  }

  // ---- Runs ----

  ghost function Run(s: Lock, steps: seq<Step>): Lock
    decreases |steps|
  {
    if steps == [] then s else Run(Do(s, steps[0]), steps[1..])
  }

  ghost function QueueRun(q: Queue, s: Lock, steps: seq<Step>): Queue
    decreases |steps|
  {
    if steps == [] then q else QueueRun(QueueDo(q, s, steps[0]), Do(s, steps[0]), steps[1..])
  }

  /** The threads that took a ticket, in order. */
  ghost function Takers(s: Lock, steps: seq<Step>): seq<nat>
    decreases |steps|
  {
    if steps == [] then []
    else (if Takes(s, steps[0]) then [steps[0].thread] else []) + Takers(Do(s, steps[0]), steps[1..])
  }

  /** The threads that got the lock, in order. */
  ghost function Holders(s: Lock, steps: seq<Step>): seq<nat>
    decreases |steps|
  {
    if steps == [] then []
    else (if Grants(s, steps[0]) then [steps[0].thread] else []) + Holders(Do(s, steps[0]), steps[1..])
  }

  lemma {:induction false} RunKeeps(s: Lock, q: Queue, steps: seq<Step>)
    requires Rel(s, q) && |s.pcs| <= WRAP
    ensures Rel(Run(s, steps), QueueRun(q, s, steps)) && |Run(s, steps).pcs| == |s.pcs|
    decreases |steps|
  {
    hide Rel, Do, QueueDo;
    if steps != [] {
      DoKeeps(s, q, steps[0]);
      RunKeeps(Do(s, steps[0]), QueueDo(q, s, steps[0]), steps[1..]);
    }
  }

  lemma InitRel(threads: nat)
    ensures Rel(Init(threads), Queue(0, []))
  {
  }

  /** At most one thread holds the lock. */
  predicate Exclusive(s: Lock) {
    forall a, b :: 0 <= a < |s.pcs| && 0 <= b < |s.pcs| && s.pcs[a].Holding? && s.pcs[b].Holding? ==> a == b
  }

  lemma RelExclusive(s: Lock, q: Queue)
    requires Rel(s, q)
    ensures Exclusive(s)
  {
    forall a, b | 0 <= a < |s.pcs| && 0 <= b < |s.pcs| && s.pcs[a].Holding? && s.pcs[b].Holding? ensures a == b {
      assert InLine(s.pcs[a]) && InLine(s.pcs[b]);
    }
  }

  /** The first in line already holds the lock. */
  predicate Busy(s: Lock, q: Queue) {
    q.waiting != [] && q.waiting[0] < |s.pcs| && s.pcs[q.waiting[0]].Holding?
  }

  /** The threads in line that do not hold the lock yet. */
  function Pending(s: Lock, q: Queue): seq<nat> { if Busy(s, q) then q.waiting[1..] else q.waiting }

  lemma GrantOrder(s: Lock, q: Queue, step: Step)
    requires Rel(s, q) && |s.pcs| <= WRAP && Grants(s, step)
    ensures Pending(s, q) == [step.thread] + Pending(Do(s, step), q)
  {
    hide Wrap;
    GrantIsFirst(s, q, step);
    assert q.waiting == [q.waiting[0]] + q.waiting[1..];
  }

  lemma TakeOrder(s: Lock, q: Queue, step: Step)
    requires Rel(s, q) && Takes(s, step)
    ensures Pending(s, q) + [step.thread] == Pending(Do(s, step), QueueDo(q, s, step))
  {
    hide Wrap;
    if q.waiting != [] {
      assert s.pcs[q.waiting[0]] == Do(s, step).pcs[q.waiting[0]];
      assert (q.waiting + [step.thread])[1..] == q.waiting[1..] + [step.thread];
    }
  }

  lemma DropOrder(s: Lock, q: Queue, step: Step)
    requires Rel(s, q) && Drops(s, step)
    ensures Pending(s, q) == Pending(Do(s, step), QueueDo(q, s, step))
  {
    hide Wrap;
    assert InLine(s.pcs[step.thread]);
    assert q.waiting[0] == step.thread;
    if |q.waiting| > 1 {
      assert s.pcs[q.waiting[1]].Waiting?;
    }
  }

  lemma OtherOrder(s: Lock, q: Queue, step: Step)
    requires Rel(s, q) && !Takes(s, step) && !Grants(s, step) && !Drops(s, step)
    ensures Pending(s, q) == Pending(Do(s, step), q)
  {
    hide Wrap;
  }

  /** A step moves threads from takers to pending, and from pending to holders, in order. */
  lemma StepOrder(s: Lock, q: Queue, step: Step)
    requires Rel(s, q) && |s.pcs| <= WRAP
    ensures var s', q' := Do(s, step), QueueDo(q, s, step);
            Pending(s, q) + (if Takes(s, step) then [step.thread] else [])
            == (if Grants(s, step) then [step.thread] else []) + Pending(s', q')
  {
    hide Rel, Pending, Do;
    if Takes(s, step) {
      TakeOrder(s, q, step);
    } else if Grants(s, step) {
      GrantOrder(s, q, step);
    } else if Drops(s, step) {
      DropOrder(s, q, step);
    } else {
      OtherOrder(s, q, step);
    }
  }

  lemma {:induction false} RunOrder(s: Lock, q: Queue, steps: seq<Step>)
    requires Rel(s, q) && |s.pcs| <= WRAP
    ensures Pending(s, q) + Takers(s, steps) == Holders(s, steps) + Pending(Run(s, steps), QueueRun(q, s, steps))
    decreases |steps|
  {
    hide Rel, Do, QueueDo, Pending, Takes, Grants;
    if steps != [] {
      var step, rest := steps[0], steps[1..];
      var s', q' := Do(s, step), QueueDo(q, s, step);
      DoKeeps(s, q, step);
      StepOrder(s, q, step);
      RunOrder(s', q', rest);
      var taken := if Takes(s, step) then [step.thread] else [];
      var granted := if Grants(s, step) then [step.thread] else [];
      assert Pending(s, q) + (taken + Takers(s', rest)) == (Pending(s, q) + taken) + Takers(s', rest);
      assert (granted + Pending(s', q')) + Takers(s', rest) == granted + (Pending(s', q') + Takers(s', rest));
    }
  }

  /** In every interleaving of at most 2^32 threads, across any number of wrap-arounds, at most one
      thread holds the lock, and threads get it in the order in which they took their tickets. */
  lemma FifoMutex(threads: nat, steps: seq<Step>)
    requires threads <= WRAP
    ensures Exclusive(Run(Init(threads), steps))
    ensures Holders(Init(threads), steps) <= Takers(Init(threads), steps)
  {
    hide Rel;
    InitRel(threads);
    RunKeeps(Init(threads), Queue(0, []), steps);
    RelExclusive(Run(Init(threads), steps), QueueRun(Queue(0, []), Init(threads), steps));
    RunOrder(Init(threads), Queue(0, []), steps);
    assert [] + Takers(Init(threads), steps) == Takers(Init(threads), steps);
  }

  // ---- One thread too many ----

  lemma {:induction false} RunAppend(s: Lock, a: seq<Step>, b: seq<Step>)
    ensures Run(s, a + b) == Run(Run(s, a), b)
    decreases |a|
  {
    hide Do;
    if a == [] {
      assert a + b == b;
    } else {
      assert (a + b)[1..] == a[1..] + b;
      RunAppend(Do(s, a[0]), a[1..], b);
    }
  }

  function Requests(k: nat): seq<Step> { seq(k, i requires 0 <= i < k => Request(i)) }

  /** The first k threads have taken their tickets, and none has moved on. */
  ghost predicate AllWait(s: Lock, threads: nat, k: nat) {
    && |s.pcs| == threads && s.next == 0 && s.ticket == Wrap(k)
    && forall i :: 0 <= i < threads ==> s.pcs[i] == if i < k then Waiting(Wrap(i)) else Idle
  }

  lemma {:induction false} RunRequests(threads: nat, k: nat)
    requires k <= threads
    ensures AllWait(Run(Init(threads), Requests(k)), threads, k)
  {
    if k > 0 {
      RunRequests(threads, k - 1);
      assert Requests(k) == Requests(k - 1) + [Request(k - 1)];
      RunAppend(Init(threads), Requests(k - 1), [Request(k - 1)]);
      var s := Run(Init(threads), Requests(k - 1));
      assert Run(s, [Request(k - 1)]) == Run(Do(s, Request(k - 1)), []);
      WrapNext(k - 1);
    }
  }

  /** The lock is exclusive in every run if and only if there are at most 2^32 threads: with one
      more, the last shares its ticket with the first. */
  lemma ExclusiveIff(threads: nat)
    ensures (forall steps :: Exclusive(Run(Init(threads), steps))) <==> threads <= WRAP
  {
    if threads <= WRAP {
      forall steps ensures Exclusive(Run(Init(threads), steps)) {
        FifoMutex(threads, steps);
      }
    } else {
      var s := Run(Init(threads), Requests(WRAP + 1));
      RunRequests(threads, WRAP + 1);
      var both := [Advance(0), Advance(WRAP)];
      RunAppend(Init(threads), Requests(WRAP + 1), both);
      BothEnter(s, threads);
    }
  }

  lemma BothEnter(s: Lock, threads: nat)
    requires threads > WRAP && AllWait(s, threads, WRAP + 1)
    ensures !Exclusive(Run(s, [Advance(0), Advance(WRAP)]))
  {
    var s1 := Do(s, Advance(0));
    var s2 := Do(s1, Advance(WRAP));
    assert s.pcs[0] == Waiting(0) && s.pcs[WRAP] == Waiting(0);
    assert [Advance(0), Advance(WRAP)][1..] == [Advance(WRAP)];
    assert Run(s, [Advance(0), Advance(WRAP)]) == Run(s1, [Advance(WRAP)]) == Run(s2, []);
    assert s2.pcs[0].Holding? && s2.pcs[WRAP].Holding?;
  }

  // ---- try_lock ----

  function Issued(q: Queue): nat { q.served + |q.waiting| }

  predicate Without(steps: seq<Step>, t: nat) { forall i :: 0 <= i < |steps| ==> steps[i].thread != t }

  /** While others run, a thread stays where it is and the queue only moves on. */
  lemma {:induction false} Meanwhile(s: Lock, q: Queue, steps: seq<Step>, t: nat)
    requires Rel(s, q) && |s.pcs| <= WRAP && t < |s.pcs| && Without(steps, t)
    ensures var s', q' := Run(s, steps), QueueRun(q, s, steps);
            && Rel(s', q') && |s'.pcs| == |s.pcs| && s'.pcs[t] == s.pcs[t]
            && Issued(q') == Issued(q) + |Takers(s, steps)| && q'.served >= q.served
    decreases |steps|
  {
    hide Rel;
    if steps != [] {
      DoKeeps(s, q, steps[0]);
      Meanwhile(Do(s, steps[0]), QueueDo(q, s, steps[0]), steps[1..], t);
    }
  }

  lemma LineHasRoom(s: Lock, q: Queue, t: nat)
    requires Rel(s, q) && t < |s.pcs| && !InLine(s.pcs[t])
    ensures |q.waiting| < |s.pcs|
  {
    assert t !in q.waiting;
    Pigeonhole(q.waiting + [t], |s.pcs|);
  }

  /** When fewer than 2^32 tickets are taken between try_lock's first load and its
      compare_exchange, it returns None or finds its turn has come: the spin loop exits at once. */
  lemma TryLockNeverSpins(s: Lock, q: Queue, t: nat, before: seq<Step>, after: seq<Step>)
    requires Rel(s, q) && |s.pcs| <= WRAP && t < |s.pcs| && s.pcs[t] == Idle
    requires Without(before, t) && Without(after, t)
    requires |Takers(Do(s, TryRequest(t)), before)|
           + |Takers(Do(Run(Do(s, TryRequest(t)), before), Advance(t)), after)| < WRAP
    ensures var s4 := Run(Do(Run(Do(s, TryRequest(t)), before), Advance(t)), after);
            var s5 := Do(s4, Advance(t));
            |s5.pcs| == |s.pcs| && (s5.pcs[t] == Idle || Grants(s5, Advance(t)))
  {
    hide Rel, Wrap, Do, Run, QueueRun, Grants, Takers;
    TryLoads(s, q, t);
    var s1 := Do(s, TryRequest(t));
    Meanwhile(s1, q, before, t);
    var s2, q2 := Run(s1, before), QueueRun(q, s1, before);
    TryChecks(s2, q2, t, s.ticket);
    var s3 := Do(s2, Advance(t));
    Meanwhile(s3, q2, after, t);
    var s4, q4 := Run(s3, after), QueueRun(q2, s3, after);
    Counters(s, q);
    Counters(s2, q2);
    Counters(s4, q4);
    if s4.pcs[t] == Comparing(s4.ticket) {
      WrapEqual(Issued(q), Issued(q4) - Issued(q));
      LineHasRoom(s2, q2, t);
      WrapEqual(q2.served, |q2.waiting|);
      assert q4.served == Issued(q4);
    }
    TryTakes(s4, t);
  }

  /** The three steps of try_lock. */
  lemma TryLoads(s: Lock, q: Queue, t: nat)
    requires Rel(s, q) && |s.pcs| <= WRAP && t < |s.pcs| && s.pcs[t] == Idle
    ensures var s' := Do(s, TryRequest(t)); Rel(s', q) && |s'.pcs| == |s.pcs| && s'.pcs[t] == Loaded(s.ticket)
  {
    hide Rel, Wrap;
    DoKeeps(s, q, TryRequest(t));
  }

  lemma TryChecks(s: Lock, q: Queue, t: nat, c: nat)
    requires Rel(s, q) && |s.pcs| <= WRAP && t < |s.pcs| && s.pcs[t] == Loaded(c)
    ensures var s' := Do(s, Advance(t));
            Rel(s', q) && |s'.pcs| == |s.pcs| && s'.pcs[t] == if c == s.next then Comparing(c) else Idle
  {
    hide Rel, Wrap;
    DoKeeps(s, q, Advance(t));
  }

  lemma TryTakes(s: Lock, t: nat)
    requires t < |s.pcs| && (s.pcs[t] == Idle || s.pcs[t].Comparing?)
    requires s.pcs[t] == Comparing(s.ticket) ==> s.next == s.ticket
    ensures var s' := Do(s, Advance(t)); |s'.pcs| == |s.pcs| && (s'.pcs[t] == Idle || Grants(s', Advance(t)))
  {
    hide Wrap;
  }

  lemma Counters(s: Lock, q: Queue)
    requires Rel(s, q)
    ensures s.ticket == Wrap(Issued(q)) && s.next == Wrap(q.served)
  {
  }

  /** However many were taken, a successful compare_exchange puts the thread in line, and it spins
      exactly when others are before it. */
  lemma CasJoins(s: Lock, q: Queue, t: nat)
    requires Rel(s, q) && |s.pcs| <= WRAP && t < |s.pcs| && s.pcs[t] == Comparing(s.ticket)
    ensures var s' := Do(s, Advance(t));
            |s'.pcs| == |s.pcs| && s'.pcs[t].Waiting? && (Grants(s', Advance(t)) <==> q.waiting == [])
  {
    hide Wrap;
    LineHasRoom(s, q, t);
    if Wrap(q.served + |q.waiting|) == Wrap(q.served) {
      WrapEqual(q.served, |q.waiting|);
    }
  }
}
