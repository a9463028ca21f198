// The multi-core test of the ticket lock: src/smp_test.rs. Every core increments a shared counter
// by a separate load and store under one lock, counts itself done under a second one, and core 0
// then waits for the others and reads the counter.

module Contention {
  import opened TicketLock

  const ITERATIONS := 1_000_000
  const NUM_CORES := 4

  /** Where a core is: in the loop of contention_worker (A), marking itself done (B), or, for
      core 0, polling (P) and reading the final value (F) in report_result. */
  datatype Core =
    | LoopTop(i: nat) | SpinA(i: nat) | LoadA(i: nat) | StoreA(i: nat, x: nat) | DropA(i: nat)
    | SpinB | LoadB | StoreB(x: nat) | DropB | Finished
    | PollTop | SpinP | ReadP | DropP(d: nat)
    | FinalTop | SpinF | ReadF | DropF(v: nat) | Reported(v: nat)

  /** `a` guards the counter and `b` the number of cores that are done. */
  datatype Sys = Sys(a: Lock, b: Lock, counter: nat, done: nat, cores: seq<Core>, iters: nat)

  function Start(n: nat, iters: nat): Sys { Sys(Init(n), Init(n), 0, 0, seq(n, _ => LoopTop(0)), iters) }

  function To(s: Sys, c: nat, core: Core): Sys
    requires c < |s.cores|
  {
    s.(cores := s.cores[c := core])
  }

  function StepA(s: Sys, step: Step): Sys { s.(a := TicketLock.Do(s.a, step)) }

  function StepB(s: Sys, step: Step): Sys { s.(b := TicketLock.Do(s.b, step)) }

  /** The next atomic step of core c. */
  function Do(s: Sys, c: nat): Sys {
    if c >= |s.cores| then s
    else
      match s.cores[c]
      case LoopTop(i) =>
        if i < s.iters then To(StepA(s, Request(c)), c, SpinA(i)) else To(StepB(s, Request(c)), c, SpinB)
      case SpinA(i) => if Grants(s.a, Advance(c)) then To(StepA(s, Advance(c)), c, LoadA(i)) else s
      case LoadA(i) => To(s, c, StoreA(i, s.counter))
      case StoreA(i, x) => To(s, c, DropA(i)).(counter := x + 1)
      case DropA(i) => To(StepA(s, Advance(c)), c, LoopTop(i + 1))
      case SpinB => if Grants(s.b, Advance(c)) then To(StepB(s, Advance(c)), c, LoadB) else s
      case LoadB => To(s, c, StoreB(s.done))
      case StoreB(x) => To(s, c, DropB).(done := x + 1)
      case DropB => To(StepB(s, Advance(c)), c, if c == 0 then PollTop else Finished)
      case Finished => s
      case PollTop => To(StepB(s, Request(c)), c, SpinP)
      case SpinP => if Grants(s.b, Advance(c)) then To(StepB(s, Advance(c)), c, ReadP) else s
      case ReadP => To(s, c, DropP(s.done))
      case DropP(d) => To(StepB(s, Advance(c)), c, if d >= |s.cores| then FinalTop else PollTop)
      case FinalTop => To(StepA(s, Request(c)), c, SpinF)
      case SpinF => if Grants(s.a, Advance(c)) then To(StepA(s, Advance(c)), c, ReadF) else s
      case ReadF => To(s, c, DropF(s.counter))
      case DropF(v) => To(StepA(s, Advance(c)), c, Reported(v))
      case Reported(_) => s
  }

  // ---- The invariant ----

  /** A lock that is a queue of at most 2^32 threads. */
  ghost predicate Sound(l: Lock, n: nat) { |l.pcs| == n <= WRAP && exists q :: Rel(l, q) }

  predicate UsesA(core: Core) {
    core.SpinA? || core.LoadA? || core.StoreA? || core.DropA? || core.SpinF? || core.ReadF? || core.DropF?
  }

  predicate UsesB(core: Core) {
    core.SpinB? || core.LoadB? || core.StoreB? || core.DropB? || core.SpinP? || core.ReadP? || core.DropP?
  }

  /** A core waits for or holds a lock exactly where its program says so. */
  predicate MatchA(core: Core, pc: Pc) {
    if core.SpinA? || core.SpinF? then pc.Waiting? else if UsesA(core) then pc.Holding? else pc.Idle?
  }

  predicate MatchB(core: Core, pc: Pc) {
    if core.SpinB? || core.SpinP? then pc.Waiting? else if UsesB(core) then pc.Holding? else pc.Idle?
  }

  /** The increments a core has stored. */
  function Stored(core: Core, iters: nat): nat {
    match core
    case LoopTop(i) => i
    case SpinA(i) => i
    case LoadA(i) => i
    case StoreA(i, _) => i
    case DropA(i) => i + 1
    case _ => iters
  }

  function Marked(core: Core): nat {
    if core.LoopTop? || core.SpinA? || core.LoadA? || core.StoreA? || core.DropA? || core.SpinB? || core.LoadB?
      || core.StoreB?
    then 0 else 1
  }

  function Total(cores: seq<Core>, iters: nat): nat {
    if cores == [] then 0 else Total(cores[..|cores| - 1], iters) + Stored(cores[|cores| - 1], iters)
  }

  function AllMarked(cores: seq<Core>): nat {
    if cores == [] then 0 else AllMarked(cores[..|cores| - 1]) + Marked(cores[|cores| - 1])
  }

  /** What a core has read is still true, or was and cannot matter any more. */
  predicate CoreOk(s: Sys, core: Core) {
    match core
    case LoopTop(i) => i <= s.iters
    case SpinA(i) => i < s.iters
    case LoadA(i) => i < s.iters
    case StoreA(i, x) => i < s.iters && x == s.counter
    case DropA(i) => i < s.iters
    case StoreB(x) => x == s.done
    case DropP(d) => d <= s.done
    case FinalTop => s.done == |s.cores|
    case SpinF => s.done == |s.cores|
    case ReadF => s.done == |s.cores|
    case DropF(v) => s.done == |s.cores| && v == |s.cores| * s.iters
    case Reported(v) => s.done == |s.cores| && v == |s.cores| * s.iters
    case _ => true
  }

  ghost predicate Inv(s: Sys) {
    && Sound(s.a, |s.cores|) && Sound(s.b, |s.cores|)
    && s.counter == Total(s.cores, s.iters) && s.done == AllMarked(s.cores)
    && forall c :: 0 <= c < |s.cores| ==>
         MatchA(s.cores[c], s.a.pcs[c]) && MatchB(s.cores[c], s.b.pcs[c]) && CoreOk(s, s.cores[c])
  }

  // ---- The locks ----

  lemma SoundStep(l: Lock, n: nat, step: Step)
    requires Sound(l, n)
    ensures Sound(TicketLock.Do(l, step), n) && Exclusive(l)
  {
    hide Rel, TicketLock.Do;
    var q :| Rel(l, q);
    TicketLock.DoKeeps(l, q, step);
    RelExclusive(l, q);
  }

  /** What a step of thread c does to the threads' places in the lock. */
  lemma StepPcs(l: Lock, step: Step)
    requires step.thread < |l.pcs|
    ensures var l' := TicketLock.Do(l, step);
            && |l'.pcs| == |l.pcs|
            && (forall t :: 0 <= t < |l.pcs| && t != step.thread ==> l'.pcs[t] == l.pcs[t])
            && (step.Request? && l.pcs[step.thread].Idle? ==> l'.pcs[step.thread].Waiting?)
            && (Grants(l, step) ==> l'.pcs[step.thread].Holding?)
            && (step.Advance? && l.pcs[step.thread].Holding? ==> l'.pcs[step.thread].Idle?)
  {
  }

  // ---- The sums ----

  lemma {:induction false} TotalUpdate(cores: seq<Core>, iters: nat, c: nat, core: Core)
    requires c < |cores|
    ensures Total(cores[c := core], iters) == Total(cores, iters) - Stored(cores[c], iters) + Stored(core, iters)
    ensures AllMarked(cores[c := core]) == AllMarked(cores) - Marked(cores[c]) + Marked(core)
  {
    var n := |cores| - 1;
    if c == n {
      assert cores[c := core][..n] == cores[..n];
    } else {
      TotalUpdate(cores[..n], iters, c, core);
      assert cores[c := core][..n] == cores[..n][c := core];
    }
  }

  /** All cores are marked exactly when the count says so; then every increment is stored. */
  lemma {:induction false} AllStored(cores: seq<Core>, iters: nat)
    ensures AllMarked(cores) <= |cores|
    ensures AllMarked(cores) == |cores| ==>
      Total(cores, iters) == |cores| * iters && forall c :: 0 <= c < |cores| ==> Marked(cores[c]) == 1
  {
    if cores != [] {
      AllStored(cores[..|cores| - 1], iters);
    }
  }

  lemma {:induction false} StartSums(n: nat, iters: nat)
    ensures Total(seq(n, _ => LoopTop(0)), iters) == 0 && AllMarked(seq(n, _ => LoopTop(0))) == 0
  {
    if n > 0 {
      StartSums(n - 1, iters);
      assert seq(n, _ => LoopTop(0))[..n - 1] == seq(n - 1, _ => LoopTop(0));
    }
  }

  // ---- Every step keeps the invariant ----

  /** The shared values change only under their lock. */
  lemma StoreAlone(s: Sys, c: nat)
    requires Inv(s) && c < |s.cores|
    ensures s.cores[c].StoreA? ==> forall d :: 0 <= d < |s.cores| && d != c ==> !s.cores[d].StoreA?
    ensures s.cores[c].StoreB? ==> forall d :: 0 <= d < |s.cores| && d != c ==> !s.cores[d].StoreB?
  {
    hide Rel, Total, AllMarked;
    SoundStep(s.a, |s.cores|, Advance(c));
    SoundStep(s.b, |s.cores|, Advance(c));
    forall d | 0 <= d < |s.cores| && d != c && s.cores[c].StoreA? ensures !s.cores[d].StoreA? {
      assert MatchA(s.cores[c], s.a.pcs[c]) && MatchA(s.cores[d], s.a.pcs[d]);
    }
    forall d | 0 <= d < |s.cores| && d != c && s.cores[c].StoreB? ensures !s.cores[d].StoreB? {
      assert MatchB(s.cores[c], s.b.pcs[c]) && MatchB(s.cores[d], s.b.pcs[d]);
    }
  }

  /** A step changes its own core's place only. */
  lemma DoFrame(s: Sys, c: nat)
    requires c < |s.cores|
    ensures var s' := Do(s, c);
            && |s'.cores| == |s.cores| && s'.iters == s.iters
            && (forall d :: 0 <= d < |s.cores| && d != c ==> s'.cores[d] == s.cores[d])
            && (s'.a == s.a || s'.a == TicketLock.Do(s.a, Request(c)) || s'.a == TicketLock.Do(s.a, Advance(c)))
            && (s'.b == s.b || s'.b == TicketLock.Do(s.b, Request(c)) || s'.b == TicketLock.Do(s.b, Advance(c)))
  {
    hide TicketLock.Do;
  }

  lemma DoMatchA(s: Sys, c: nat)
    requires c < |s.cores| == |s.a.pcs| && MatchA(s.cores[c], s.a.pcs[c])
    ensures var s' := Do(s, c); |s'.cores| == |s.cores| == |s'.a.pcs| && MatchA(s'.cores[c], s'.a.pcs[c])
  {
    hide TicketLock.Do, Grants;
    StepPcs(s.a, Advance(c));
    StepPcs(s.a, Request(c));
  }

  lemma DoMatchB(s: Sys, c: nat)
    requires c < |s.cores| == |s.b.pcs| && MatchB(s.cores[c], s.b.pcs[c])
    ensures var s' := Do(s, c); |s'.cores| == |s.cores| == |s'.b.pcs| && MatchB(s'.cores[c], s'.b.pcs[c])
  {
    hide TicketLock.Do, Grants;
    StepPcs(s.b, Advance(c));
    StepPcs(s.b, Request(c));
  }

  lemma DoLocks(s: Sys, c: nat)
    requires Inv(s) && c < |s.cores|
    ensures var s' := Do(s, c);
            && |s'.cores| == |s.cores| && s'.iters == s.iters && Sound(s'.a, |s.cores|) && Sound(s'.b, |s.cores|)
            && (forall d :: 0 <= d < |s.cores| ==> MatchA(s'.cores[d], s'.a.pcs[d]) && MatchB(s'.cores[d], s'.b.pcs[d]))
  {
    hide Total, AllMarked, TicketLock.Do, Rel, CoreOk, Do, MatchA, MatchB;
    SoundStep(s.a, |s.cores|, Advance(c));
    SoundStep(s.b, |s.cores|, Advance(c));
    SoundStep(s.a, |s.cores|, Request(c));
    SoundStep(s.b, |s.cores|, Request(c));
    StepPcs(s.a, Advance(c));
    StepPcs(s.b, Advance(c));
    StepPcs(s.a, Request(c));
    StepPcs(s.b, Request(c));
    DoFrame(s, c);
    DoMatchA(s, c);
    DoMatchB(s, c);
  }

  /** A step adds to the counter what it adds to its core's account. */
  lemma DoCounter(s: Sys, c: nat)
    requires c < |s.cores| && CoreOk(s, s.cores[c])
    ensures var s' := Do(s, c);
            && |s'.cores| == |s.cores|
            && s'.counter == s.counter - Stored(s.cores[c], s.iters) + Stored(s'.cores[c], s.iters)
  {
    hide TicketLock.Do, Grants;
  }

  lemma DoDone(s: Sys, c: nat)
    requires c < |s.cores| && CoreOk(s, s.cores[c])
    ensures var s' := Do(s, c); |s'.cores| == |s.cores| && s'.done == s.done - Marked(s.cores[c]) + Marked(s'.cores[c])
  {
    hide TicketLock.Do, Grants;
  }

  lemma DoSums(s: Sys, c: nat)
    requires Inv(s) && c < |s.cores|
    ensures var s' := Do(s, c); s'.counter == Total(s'.cores, s.iters) && s'.done == AllMarked(s'.cores)
  {
    hide Total, AllMarked, Do, Sound, CoreOk, Stored, Marked;
    assert CoreOk(s, s.cores[c]);
    DoCounter(s, c);
    DoDone(s, c);
    DoFrame(s, c);
    assert Do(s, c).cores == s.cores[c := Do(s, c).cores[c]];
    TotalUpdate(s.cores, s.iters, c, Do(s, c).cores[c]);
  }

  lemma DoCores(s: Sys, c: nat)
    requires Inv(s) && c < |s.cores|
    ensures var s' := Do(s, c); |s'.cores| == |s.cores| && forall d :: 0 <= d < |s.cores| ==> CoreOk(s', s'.cores[d])
  {
    hide Total, AllMarked, TicketLock.Do, Sound, Grants;
    var s' := Do(s, c);
    assert CoreOk(s, s.cores[c]);
    AllStored(s.cores, s.iters);
    AllStored(s'.cores, s.iters);
    DoSums(s, c);
    StoreAlone(s, c);
    forall d | 0 <= d < |s.cores| ensures CoreOk(s', s'.cores[d]) {
      assert CoreOk(s, s.cores[d]);
      if d != c {
        assert s'.cores[d] == s.cores[d];
      }
    }
  }

  lemma DoKeeps(s: Sys, c: nat)
    requires Inv(s)
    ensures Inv(Do(s, c)) && |Do(s, c).cores| == |s.cores| && Do(s, c).iters == s.iters
  {
    if c < |s.cores| {
      hide Do, Sound, Total, AllMarked, CoreOk;
      DoLocks(s, c);
      DoSums(s, c);
      DoCores(s, c);
    }
  }

  // ---- Runs ----

  ghost function Run(s: Sys, schedule: seq<nat>): Sys
    decreases |schedule|
  {
    if schedule == [] then s else Run(Do(s, schedule[0]), schedule[1..])
  }

  lemma {:induction false} RunKeeps(s: Sys, schedule: seq<nat>)
    requires Inv(s)
    ensures Inv(Run(s, schedule)) && |Run(s, schedule).cores| == |s.cores| && Run(s, schedule).iters == s.iters
    decreases |schedule|
  {
    hide Do, Inv;
    if schedule != [] {
      DoKeeps(s, schedule[0]);
      RunKeeps(Do(s, schedule[0]), schedule[1..]);
    }
  }

  lemma StartInv(n: nat, iters: nat)
    requires n <= WRAP
    ensures Inv(Start(n, iters))
  {
    hide Rel;
    InitRel(n);
    StartSums(n, iters);
  }

  /** In every interleaving of n cores, what core 0 reports is n times the iterations. */
  lemma ReportIsExact(n: nat, iters: nat, schedule: seq<nat>, c: nat)
    requires n <= WRAP && c < n
    ensures var s := Run(Start(n, iters), schedule);
            |s.cores| == n && (s.cores[c].Reported? ==> s.cores[c].v == n * iters)
  {
    StartInv(n, iters);
    RunKeeps(Start(n, iters), schedule);
    hide Run, Start;
    var s := Run(Start(n, iters), schedule);
    assert CoreOk(s, s.cores[c]);
  }

  /** The test as it stands: only its PASS branch can be reached. */
  lemma OnlyPass(schedule: seq<nat>)
    ensures var s := Run(Start(NUM_CORES, ITERATIONS), schedule);
            |s.cores| == NUM_CORES && (s.cores[0].Reported? ==> s.cores[0].v == 4_000_000)
  {
    ReportIsExact(NUM_CORES, ITERATIONS, schedule, 0);
  }

  // ---- Progress ----

  /** A core waits for the others to be done: it looks, and looks again. */
  predicate Polls(core: Core) { core.PollTop? || core.SpinP? || core.ReadP? || core.DropP? }

  predicate Through(core: Core) { core.Finished? || core.Reported? }

  predicate AllThrough(s: Sys) { forall c :: 0 <= c < |s.cores| ==> Through(s.cores[c]) }

  predicate OnlyZeroPolls(s: Sys) { forall c :: 0 <= c < |s.cores| && Polls(s.cores[c]) ==> c == 0 }

  lemma PollersKept(s: Sys, c: nat)
    requires OnlyZeroPolls(s)
    ensures OnlyZeroPolls(Do(s, c))
  {
    hide TicketLock.Do, Grants;
    if c < |s.cores| {
      DoFrame(s, c);
    }
  }

  function Rest(i: nat, iters: nat): nat { if i < iters then iters - i else 0 }

  /** The steps a core has yet to take, without the ones spent waiting. */
  function Left(core: Core, iters: nat): nat {
    match core
    case LoopTop(i) => 5 * Rest(i, iters) + 10
    case SpinA(i) => 5 * Rest(i, iters) + 9
    case LoadA(i) => 5 * Rest(i, iters) + 8
    case StoreA(i, _) => 5 * Rest(i, iters) + 7
    case DropA(i) => 5 * Rest(i, iters) + 6
    case SpinB => 9
    case LoadB => 8
    case StoreB(_) => 7
    case DropB => 6
    case PollTop => 5
    case SpinP => 5
    case ReadP => 5
    case DropP(_) => 5
    case FinalTop => 4
    case SpinF => 3
    case ReadF => 2
    case DropF(_) => 1
    case Finished => 0
    case Reported(_) => 0
  }

  function Work(cores: seq<Core>, iters: nat): nat {
    if cores == [] then 0 else Work(cores[..|cores| - 1], iters) + Left(cores[|cores| - 1], iters)
  }

  lemma {:induction false} WorkUpdate(cores: seq<Core>, iters: nat, c: nat, core: Core)
    requires c < |cores|
    ensures Work(cores[c := core], iters) == Work(cores, iters) - Left(cores[c], iters) + Left(core, iters)
  {
    var n := |cores| - 1;
    if c == n {
      assert cores[c := core][..n] == cores[..n];
    } else {
      WorkUpdate(cores[..n], iters, c, core);
      assert cores[c := core][..n] == cores[..n][c := core];
    }
  }

  /** A core that is not through moves on, unless it waits for its turn. */
  predicate CanMove(s: Sys, c: nat) {
    && c < |s.cores| && !Through(s.cores[c])
    && (s.cores[c].SpinA? || s.cores[c].SpinF? ==> Grants(s.a, Advance(c)))
    && (s.cores[c].SpinB? || s.cores[c].SpinP? ==> Grants(s.b, Advance(c)))
  }

  /** No step adds work; every step but those of waiting takes some away. */
  lemma WorkFalls(s: Sys, c: nat)
    requires c < |s.cores| && CoreOk(s, s.cores[c])
    ensures var s' := Do(s, c);
            && Work(s'.cores, s.iters) <= Work(s.cores, s.iters)
            && (CanMove(s, c) <==> s' != s)
            && (s' != s && (Polls(s.cores[c]) ==> s.cores[c].DropP? && s.cores[c].d >= |s.cores|) ==>
                  Work(s'.cores, s.iters) < Work(s.cores, s.iters))
  {
    hide Do, Work, Left, CanMove, CoreOk;
    DoFrame(s, c);
    LeftFalls(s, c);
    MoveIff(s, c);
    var s' := Do(s, c);
    PollLeft(s.cores[c], s.iters);
    PollLeft(s'.cores[c], s.iters);
    assert s'.cores == s.cores[c := s'.cores[c]];
    WorkUpdate(s.cores, s.iters, c, s'.cores[c]);
  }

  lemma LeftFalls(s: Sys, c: nat)
    requires c < |s.cores| && CoreOk(s, s.cores[c])
    ensures var s' := Do(s, c);
            |s'.cores| == |s.cores| && (s' == s || Falls(s, s.cores[c], s'.cores[c]))
  {
    hide TicketLock.Do, Grants, Rest;
    if s.cores[c].DropA? {
      RestStep(s.cores[c].i, s.iters);
    }
  }

  /** There is less to do, or the core goes on polling. */
  predicate Falls(s: Sys, core: Core, core': Core) {
    || Left(core', s.iters) < Left(core, s.iters)
    || (Polls(core) && Polls(core') && !(core.DropP? && core.d >= |s.cores|))
  }

  lemma PollLeft(core: Core, iters: nat)
    ensures Polls(core) ==> Left(core, iters) == 5
  {
  }

  lemma RestStep(i: nat, iters: nat)
    requires i < iters
    ensures Rest(i, iters) == Rest(i + 1, iters) + 1
  {
  }

  lemma MoveIff(s: Sys, c: nat)
    requires c < |s.cores|
    ensures var s' := Do(s, c);
            |s'.cores| == |s.cores| && if CanMove(s, c) then s'.cores[c] != s.cores[c] else s' == s
  {
    hide TicketLock.Do, Grants;
  }

  /** Whoever waits for the counter's lock waits for a core that can move and does not poll. */
  lemma WaitsA(s: Sys, c: nat) returns (first: nat)
    requires Inv(s) && c < |s.cores| && (s.cores[c].SpinA? || s.cores[c].SpinF?)
    ensures CanMove(s, first) && !Polls(s.cores[first])
  {
    hide Total, AllMarked, CoreOk, Do, Rel;
    assert MatchA(s.cores[c], s.a.pcs[c]);
    first := FirstInLine(s.a, |s.cores|, c);
    assert MatchA(s.cores[first], s.a.pcs[first]) && MatchB(s.cores[first], s.b.pcs[first]);
  }

  lemma WaitsB(s: Sys, c: nat) returns (first: nat)
    requires Inv(s) && c < |s.cores| && (s.cores[c].SpinB? || s.cores[c].SpinP?)
    ensures CanMove(s, first) && UsesB(s.cores[first])
  {
    hide Total, AllMarked, CoreOk, Do, Rel;
    assert MatchB(s.cores[c], s.b.pcs[c]);
    first := FirstInLine(s.b, |s.cores|, c);
    assert MatchA(s.cores[first], s.a.pcs[first]) && MatchB(s.cores[first], s.b.pcs[first]);
  }

  /** The turns of core 0, k of them. */
  function Zeros(k: nat): seq<nat> { seq(k, _ => 0) }

  /** Core 0's next turn comes first. */
  lemma ZeroTurn(s: Sys, k: nat)
    requires k > 0
    ensures Run(s, Zeros(k)) == Run(Do(s, 0), Zeros(k - 1))
  {
    assert Zeros(k)[1..] == Zeros(k - 1);
  }

  lemma Turn(s: Sys, c: nat)
    ensures Run(s, [c]) == Do(s, c)
  {
    assert [c][1..] == [];
    assert Run(Do(s, c), []) == Do(s, c);
  }

  /** Core 0 holds the lock of the others: at most three turns later it has let it go, and done no
      work unless it goes on to the end. */
  lemma {:induction false} PollerDrops(s: Sys, c: nat) returns (k: nat)
    requires Inv(s) && OnlyZeroPolls(s) && 0 < c < |s.cores| && s.cores[c].SpinB?
    requires CanMove(s, 0) && (s.cores[0].SpinP? || s.cores[0].ReadP? || s.cores[0].DropP?)
    ensures k == if s.cores[0].SpinP? then 3 else if s.cores[0].ReadP? then 2 else 1
    ensures var s' := Run(s, Zeros(k));
            && Inv(s') && OnlyZeroPolls(s') && |s'.cores| == |s.cores| && s'.cores[c] == s.cores[c]
            && s'.iters == s.iters
            && Work(s'.cores, s.iters) <= Work(s.cores, s.iters)
            && (s'.cores[0].PollTop? || Work(s'.cores, s.iters) < Work(s.cores, s.iters))
    decreases if s.cores[0].SpinP? then 2 else if s.cores[0].ReadP? then 1 else 0
  {
    hide Total, AllMarked, Rel, Work, Sound, Run, TicketLock.Do;
    var s1 := Do(s, 0);
    assert CoreOk(s, s.cores[0]);
    DoKeeps(s, 0);
    PollersKept(s, 0);
    DoFrame(s, 0);
    WorkFalls(s, 0);
    if s.cores[0].DropP? {
      k := 1;
      Turn(s, 0);
      assert Zeros(1) == [0];
    } else {
      k := PollerDrops(s1, c);
      k := k + 1;
      ZeroTurn(s, k);
    }
  }

  /** When every other core is through, core 0 sees it within five turns and goes on. */
  lemma {:induction false} LastPoll(s: Sys, k: nat)
    requires Inv(s) && |s.cores| > 0 && Polls(s.cores[0])
    requires forall c :: 0 < c < |s.cores| ==> Through(s.cores[c])
    requires match s.cores[0]
             case DropP(d) => if d >= |s.cores| then k == 1 else k == 5
             case PollTop => k == 4
             case SpinP => k == 3
             case _ => k == 2
    ensures Work(Run(s, Zeros(k)).cores, s.iters) < Work(s.cores, s.iters)
    ensures Inv(Run(s, Zeros(k)))
    decreases k
  {
    hide Total, Rel, Work, Sound, Run, TicketLock.Do;
    var s1 := Do(s, 0);
    if s.cores[0].SpinP? {
      var first := WaitsB(s, 0);
      assert first == 0;
    }
    assert CoreOk(s, s.cores[0]);
    AllDone(s);
    DoKeeps(s, 0);
    DoFrame(s, 0);
    WorkFalls(s, 0);
    if k == 1 {
      Turn(s, 0);
      assert Zeros(1) == [0];
    } else {
      LastPoll(s1, k - 1);
      ZeroTurn(s, k);
    }
  }

  lemma AllDone(s: Sys)
    requires Inv(s) && forall c :: 0 <= c < |s.cores| ==> Marked(s.cores[c]) == 1
    ensures s.done == |s.cores|
  {
    hide Total, Rel, Sound, CoreOk, AllMarked;
    MarkedSum(s.cores);
  }

  lemma {:induction false} MarkedSum(cores: seq<Core>)
    requires forall c :: 0 <= c < |cores| ==> Marked(cores[c]) == 1
    ensures AllMarked(cores) == |cores|
  {
    if cores != [] {
      MarkedSum(cores[..|cores| - 1]);
    }
  }

  /** No deadlock and no livelock: until every core is through, at most five steps that can be taken
      bring less work, not counting any spent waiting. */
  lemma Progress(s: Sys) returns (schedule: seq<nat>)
    requires Inv(s) && OnlyZeroPolls(s) && !AllThrough(s)
    ensures |schedule| <= 5 && Work(Run(s, schedule).cores, s.iters) < Work(s.cores, s.iters)
    ensures Inv(Run(s, schedule)) && OnlyZeroPolls(Run(s, schedule)) && Run(s, schedule).iters == s.iters
  {
    hide Total, AllMarked, Rel, Work, Sound, Run, TicketLock.Do, CoreOk, Do, Inv, Grants;
    if c :| 0 <= c < |s.cores| && !Through(s.cores[c]) && !Polls(s.cores[c]) {
      schedule := OthersProgress(s, c);
    } else {
      var c :| 0 <= c < |s.cores| && !Through(s.cores[c]);
      assert c == 0;
      var k := match s.cores[0]
        case DropP(d) => if d >= |s.cores| then 1 else 5
        case PollTop => 4
        case SpinP => 3
        case _ => 2;
      LastPoll(s, k);
      schedule := Zeros(k);
    }
    RunKeeps(s, schedule);
    PollersKeptRun(s, schedule);
  }

  lemma {:induction false} PollersKeptRun(s: Sys, schedule: seq<nat>)
    requires OnlyZeroPolls(s)
    ensures OnlyZeroPolls(Run(s, schedule))
    decreases |schedule|
  {
    hide Do, OnlyZeroPolls;
    if schedule != [] {
      PollersKept(s, schedule[0]);
      PollersKeptRun(Do(s, schedule[0]), schedule[1..]);
    }
  }

  /** The core c has work to do: it, or the core it waits for, does some. */
  lemma OthersProgress(s: Sys, c: nat) returns (schedule: seq<nat>)
    requires Inv(s) && OnlyZeroPolls(s) && c < |s.cores| && !Through(s.cores[c]) && !Polls(s.cores[c])
    ensures |schedule| <= 5 && Work(Run(s, schedule).cores, s.iters) < Work(s.cores, s.iters)
  {
    hide Total, AllMarked, Rel, Work, Sound, Run, TicketLock.Do, CoreOk, Do, Grants;
    if CanMove(s, c) {
      schedule := [c];
      Works(s, c);
    } else if s.cores[c].SpinA? || s.cores[c].SpinF? {
      var first := WaitsA(s, c);
      schedule := [first];
      Works(s, first);
    } else {
      var first := WaitsB(s, c);
      if !Polls(s.cores[first]) {
        schedule := [first];
        Works(s, first);
      } else {
        var k := PollerDrops(s, c);
        var s1 := Run(s, Zeros(k));
        if Work(s1.cores, s.iters) < Work(s.cores, s.iters) {
          schedule := Zeros(k);
        } else {
          var second := WaitsB(s1, c);
          Works(s1, second);
          RunThen(s, Zeros(k), second);
          schedule := Zeros(k) + [second];
        }
      }
    }
  }

  lemma Works(s: Sys, c: nat)
    requires Inv(s) && CanMove(s, c) && !Polls(s.cores[c])
    ensures Work(Run(s, [c]).cores, s.iters) < Work(s.cores, s.iters) && Run(s, [c]) == Do(s, c)
  {
    hide Work, Run, Do, Sound, Total, AllMarked, Grants;
    assert CoreOk(s, s.cores[c]);
    Turn(s, c);
    WorkFalls(s, c);
  }

  lemma {:induction false} RunThen(s: Sys, schedule: seq<nat>, c: nat)
    ensures Run(s, schedule + [c]) == Do(Run(s, schedule), c)
    decreases |schedule|
  {
    hide Do;
    if schedule == [] {
      assert schedule + [c] == [c];
      Turn(s, c);
    } else {
      RunThen(Do(s, schedule[0]), schedule[1..], c);
      assert (schedule + [c])[1..] == schedule[1..] + [c];
    }
  }

  /** From every reachable state the test can be run to its end, with every core through. */
  lemma {:induction false} CanFinish(s: Sys) returns (schedule: seq<nat>)
    requires Inv(s) && OnlyZeroPolls(s)
    ensures AllThrough(Run(s, schedule))
    decreases Work(s.cores, s.iters)
  {
    hide Do, Inv, OnlyZeroPolls, AllThrough, Work;
    if AllThrough(s) {
      schedule := [];
    } else {
      var first := Progress(s);
      var rest := CanFinish(Run(s, first));
      RunBoth(s, first, rest);
      schedule := first + rest;
    }
  }

  lemma {:induction false} RunBoth(s: Sys, a: seq<nat>, b: seq<nat>)
    ensures Run(s, a + b) == Run(Run(s, a), b)
    decreases |a|
  {
    hide Do;
    if a == [] {
      assert a + b == b;
    } else {
      RunBoth(Do(s, a[0]), a[1..], b);
      assert (a + b)[1..] == a[1..] + b;
    }
  }

  /** The test of n cores, wherever it stands, can be run on until core 0 reports n times the
      iterations. */
  lemma TestEnds(n: nat, iters: nat, schedule: seq<nat>) returns (more: seq<nat>)
    requires 0 < n <= WRAP
    ensures var s := Run(Start(n, iters), schedule + more);
            AllThrough(s) && |s.cores| == n && s.cores[0] == Reported(n * iters)
  {
    StartInv(n, iters);
    var s0 := Start(n, iters);
    RunKeeps(s0, schedule);
    assert OnlyZeroPolls(s0);
    PollersKeptRun(s0, schedule);
    hide Run, Start;
    more := CanFinish(Run(s0, schedule));
    RunBoth(s0, schedule, more);
    ReportIsExact(n, iters, schedule + more, 0);
    ZeroReports(s0, schedule + more);
  }

  /** Core 0 does not stop before its report. */
  lemma {:induction false} ZeroReports(s: Sys, schedule: seq<nat>)
    requires |s.cores| > 0 && !s.cores[0].Finished?
    ensures |Run(s, schedule).cores| > 0 && !Run(s, schedule).cores[0].Finished?
    decreases |schedule|
  {
    hide TicketLock.Do, Grants;
    if schedule != [] {
      if schedule[0] < |s.cores| {
        DoFrame(s, schedule[0]);
      }
      ZeroReports(Do(s, schedule[0]), schedule[1..]);
    }
  }

  /** Behind a waiting thread there is one that holds the lock or whose turn it is. */
  lemma FirstInLine(l: Lock, n: nat, c: nat) returns (first: nat)
    requires Sound(l, n) && c < n && l.pcs[c].Waiting?
    ensures first < n && (l.pcs[first].Holding? || Grants(l, Advance(first)))
  {
    var q :| Rel(l, q);
    assert InLine(l.pcs[c]);
    first := q.waiting[0];
  }
}
