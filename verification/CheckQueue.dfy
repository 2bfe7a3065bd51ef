/**
 CCheckQueue: one master adds checks and later joins any number of workers in Loop until
 every check is done. Each critical section of Loop is one atomic step; everything between
 two critical sections of a thread interleaves freely with the other threads.
 */
module CheckQueue {
  import opened Common

  /** A check and the verdict it will give when it is called. */
  datatype Check = Check(id: nat, ok: bool)

  /** Where a thread is. Sleeping is inside cond.wait; Woken has been notified (or woke
      spuriously) and still needs the mutex. */
  datatype Thread =
    | Outside
    | Entering
    | Sleeping
    | Woken
    | Working(batch: seq<Check>, next: nat, fOk: bool)
    | Exited

  /** A finished Wait: the checks added for it, those called and those skipped, and its result. */
  datatype Round = Round(added: seq<Check>, ran: seq<Check>, skipped: seq<Check>, result: bool)

  /** The guarded fields, the threads (the master is thread 0) and the history of this round. */
  datatype State = State(
    batchSize: nat,
    queue: seq<Check>,
    nIdle: int,
    nTotal: int,
    fAllOk: bool,
    nTodo: int,
    stop: bool,
    threads: seq<Thread>,
    added: seq<Check>,
    ran: seq<Check>,
    skipped: seq<Check>,
    rounds: seq<Round>)

  datatype Action =
    | Add(checks: seq<Check>)
    | CallWait
    | Enter(t: nat)
    | Wake(t: nat)
    | Resume(t: nat)
    | Execute(t: nat)
    | Finish(t: nat)
    | RequestStop

  function Init(batchSize: nat, workers: nat): State {
    State(batchSize, [], 0, 0, true, 0, false,
          [Outside] + seq(workers, _ => Entering), [], [], [], [])
  }

  /** How many checks a thread takes from a non-empty queue: at least one, never more than there are. */
  function BatchLength(s: State): (nNow: int)
    requires s.nTotal + s.nIdle + 1 > 0 && s.queue != []
    ensures 1 <= nNow <= |s.queue| && nNow <= Max(1, s.batchSize)
  {
    Max(1, Min(s.batchSize, |s.queue| / (s.nTotal + s.nIdle + 1)))
  }

  predicate CountersSane(s: State) {
    s.nTotal >= 0 && s.nIdle >= 0
  }

  /** The rest of a critical section, from the head of the inner loop on. */
  function LoopHead(s: State, t: nat): State
    requires t < |s.threads| && CountersSane(s)
  {
    if s.queue == [] && !s.stop then
      if t == 0 && s.nTodo == 0 then
        s.(nTotal := s.nTotal - 1, fAllOk := true, threads := s.threads[t := Outside],
           rounds := s.rounds + [Round(s.added, s.ran, s.skipped, s.fAllOk)],
           added := [], ran := [], skipped := [])
      else
        s.(nIdle := s.nIdle + 1, threads := s.threads[t := Sleeping])
    else if s.stop then
      s.(threads := s.threads[t := Exited])
    else
      var start := |s.queue| - BatchLength(s);
      s.(queue := s.queue[..start], threads := s.threads[t := Working(s.queue[start..], 0, s.fAllOk)])
  }

  /** A notification of the master: it matters only when the master sleeps. */
  function NotifyMaster(threads: seq<Thread>): seq<Thread>
    requires threads != []
  {
    if threads[0].Sleeping? then threads[0 := Woken] else threads
  }

  /** The thread concerned has reached the step. */
  predicate Ready(s: State, a: Action) {
    && s.threads != []
    && match a
       case Add(_) => s.threads[0].Outside?
       case CallWait => s.threads[0].Outside?
       case Enter(t) => t < |s.threads| && s.threads[t].Entering?
       case Wake(t) => t < |s.threads| && s.threads[t].Sleeping?
       case Resume(t) => t < |s.threads| && s.threads[t].Woken?
       case Execute(t) => t < |s.threads| && s.threads[t].Working? && s.threads[t].next < |s.threads[t].batch|
       case Finish(t) => t < |s.threads| && s.threads[t].Working? && s.threads[t].next == |s.threads[t].batch|
       case RequestStop => true
  }

  /** The step is reached and none of its decrements would pass below zero; the second half
      never holds a thread back (ReadyIsEnabled). */
  predicate Enabled(s: State, a: Action) {
    && Ready(s, a) && CountersSane(s)
    && (a.Resume? ==> s.nIdle > 0)
    && (a.Finish? ==> s.nTodo >= |s.threads[a.t].batch|)
  }

  /** The clean-up of a finished batch, before the head of the inner loop. */
  function Settle(s: State, t: nat): State
    requires t < |s.threads| && s.threads[t].Working?
  {
    var w := s.threads[t];
    var todo := s.nTodo - |w.batch|;
    var threads := s.threads[t := Entering];
    s.(fAllOk := s.fAllOk && w.fOk, nTodo := todo,
       threads := if todo == 0 && t != 0 then NotifyMaster(threads) else threads)
  }

  function Next(s: State, a: Action): State
    requires Enabled(s, a)
  {
    match a
    case Add(checks) =>
      s.(queue := s.queue + checks, nTodo := s.nTodo + |checks|, added := s.added + checks)
    case CallWait => s.(threads := s.threads[0 := Entering])
    case Enter(t) => LoopHead(s.(nTotal := s.nTotal + 1), t)
    case Wake(t) => s.(threads := s.threads[t := Woken])
    case Resume(t) => LoopHead(s.(nIdle := s.nIdle - 1, threads := s.threads[t := Entering]), t)
    case Execute(t) =>
      var w := s.threads[t];
      var c := w.batch[w.next];
      if w.fOk then
        s.(threads := s.threads[t := w.(next := w.next + 1, fOk := c.ok)], ran := s.ran + [c])
      else
        s.(threads := s.threads[t := w.(next := w.next + 1)], skipped := s.skipped + [c])
    case Finish(t) => LoopHead(Settle(s, t), t)
    case RequestStop => s.(stop := true)
  }

  predicate Legal(s: State, run: seq<Action>)
    decreases |run|
  {
    run != [] ==> Enabled(s, run[0]) && Legal(Next(s, run[0]), run[1..])
  }

  function Run(s: State, run: seq<Action>): State
    requires Legal(s, run)
    decreases |run|
  {
    if run == [] then s else Run(Next(s, run[0]), run[1..])
  }

  // ---------------------------------------------------------------- sums over threads

  function Sum(f: Thread -> int, ts: seq<Thread>): int {
    if ts == [] then 0 else f(ts[0]) + Sum(f, ts[1..])
  }

  function Held(th: Thread): int { if th.Working? then |th.batch| else 0 }
  function Idle(th: Thread): int { if th.Sleeping? || th.Woken? then 1 else 0 }
  function InLoop(th: Thread): int { if th.Sleeping? || th.Woken? || th.Working? then 1 else 0 }

  function Pool(f: Thread -> multiset<Check>, ts: seq<Thread>): multiset<Check> {
    if ts == [] then multiset{} else f(ts[0]) + Pool(f, ts[1..])
  }

  function Left(th: Thread): multiset<Check> {
    if th.Working? && th.next <= |th.batch| then multiset(th.batch[th.next..]) else multiset{}
  }

  lemma {:induction false} SumUpdate(f: Thread -> int, ts: seq<Thread>, t: nat, th: Thread)
    requires t < |ts|
    ensures Sum(f, ts[t := th]) == Sum(f, ts) - f(ts[t]) + f(th)
  {
    if t == 0 {
      assert ts[t := th][1..] == ts[1..];
    } else {
      assert ts[t := th][1..] == ts[1..][t - 1 := th];
      SumUpdate(f, ts[1..], t - 1, th);
    }
  }

  lemma {:induction false} SumAtLeast(f: Thread -> int, ts: seq<Thread>, t: nat)
    requires t < |ts| && forall th :: f(th) >= 0
    ensures Sum(f, ts) >= f(ts[t]) >= 0
  {
    if t > 0 {
      SumAtLeast(f, ts[1..], t - 1);
    } else {
      SumNonNegative(f, ts[1..]);
    }
  }

  lemma {:induction false} SumNonNegative(f: Thread -> int, ts: seq<Thread>)
    requires forall th :: f(th) >= 0
    ensures Sum(f, ts) >= 0
  {
    if ts != [] {
      SumNonNegative(f, ts[1..]);
    }
  }

  lemma {:induction false} PoolUpdate(f: Thread -> multiset<Check>, ts: seq<Thread>, t: nat, th: Thread)
    requires t < |ts|
    ensures Pool(f, ts[t := th]) + f(ts[t]) == Pool(f, ts) + f(th)
  {
    if t == 0 {
      assert ts[t := th][1..] == ts[1..];
    } else {
      assert ts[t := th][1..] == ts[1..][t - 1 := th];
      PoolUpdate(f, ts[1..], t - 1, th);
      var rest, rest' := Pool(f, ts[1..]), Pool(f, ts[t := th][1..]);
      assert f(ts[0]) + rest' + f(ts[t]) == f(ts[0]) + (rest' + f(ts[t]));
      assert f(ts[0]) + rest + f(th) == f(ts[0]) + (rest + f(th));
    }
  }

  // ---------------------------------------------------------------- the invariant

  predicate AllOk(cs: seq<Check>) { forall c :: c in cs ==> c.ok }

  predicate Promising(th: Thread) {
    th.Working? && th.next <= |th.batch| ==> th.fOk && AllOk(th.batch[th.next..])
  }

  predicate SomeFailed(cs: seq<Check>) { exists c :: c in cs && !c.ok }

  predicate ThreadOk(s: State, t: nat)
    requires t < |s.threads|
  {
    var th := s.threads[t];
    && (th.Outside? ==> t == 0)
    && (th.Exited? ==> s.stop)
    && (th.Working? ==> |th.batch| >= 1 && th.next <= |th.batch| && (!th.fOk ==> SomeFailed(s.ran)))
  }

  /** nTodo counts the queued and the in-flight checks; the idle and total counters count threads. */
  ghost predicate Counted(s: State) {
    && s.nTodo == |s.queue| + Sum(Held, s.threads)
    && s.nIdle == Sum(Idle, s.threads)
    && s.nTotal >= Sum(InLoop, s.threads)
    && (!s.stop ==> s.nTotal == Sum(InLoop, s.threads))
  }

  /** The verdicts so far and those still to come make up the conjunction of what was added. */
  ghost predicate Verdicts(s: State) {
    && (AllOk(s.added) <==> s.fAllOk && AllOk(s.queue) &&
                            forall t :: 0 <= t < |s.threads| ==> Promising(s.threads[t]))
    && (!s.fAllOk || s.skipped != [] ==> SomeFailed(s.ran))
  }

  /** No check is lost or called twice. */
  ghost predicate Conserved(s: State) {
    multiset(s.added) == multiset(s.ran) + multiset(s.skipped) + multiset(s.queue) + Pool(Left, s.threads)
  }

  predicate RoundOk(r: Round) {
    && (r.result <==> AllOk(r.added))
    && multiset(r.added) == multiset(r.ran) + multiset(r.skipped)
    && (r.skipped != [] ==> SomeFailed(r.ran))
  }

  /** While the master sleeps un-notified nothing can be queued and work is in flight. */
  predicate MasterOk(s: State) {
    s.threads != [] && s.threads[0].Sleeping? ==> s.queue == [] && s.nTodo > 0
  }

  ghost predicate Inv(s: State) {
    && s.threads != []
    && Counted(s) && Verdicts(s) && Conserved(s) && MasterOk(s)
    && (forall t :: 0 <= t < |s.threads| ==> ThreadOk(s, t))
    && (forall i :: 0 <= i < |s.rounds| ==> RoundOk(s.rounds[i]))
  }

  // ---------------------------------------------------------------- every step keeps it

  /** A thread that holds the mutex is at the head of the inner loop; it is counted in nTotal
      but holds no checks. */
  ghost predicate AtLoopHead(s: State, t: nat) {
    && t < |s.threads| && s.threads[t].Entering?
    && s.nTodo == |s.queue| + Sum(Held, s.threads)
    && s.nIdle == Sum(Idle, s.threads)
    && s.nTotal >= Sum(InLoop, s.threads) + 1
    && (!s.stop ==> s.nTotal == Sum(InLoop, s.threads) + 1)
    && Verdicts(s) && Conserved(s) && MasterOk(s)
    && (forall i :: 0 <= i < |s.threads| ==> ThreadOk(s, i))
    && (forall i :: 0 <= i < |s.rounds| ==> RoundOk(s.rounds[i]))
  }

  lemma SumsNonNegative(ts: seq<Thread>)
    ensures Sum(Held, ts) >= 0 && Sum(Idle, ts) >= 0 && Sum(InLoop, ts) >= 0
  {
    SumNonNegative(Held, ts);
    SumNonNegative(Idle, ts);
    SumNonNegative(InLoop, ts);
  }

  lemma SumsUpdate(ts: seq<Thread>, t: nat, th: Thread)
    requires t < |ts|
    ensures var ts' := ts[t := th];
            && Sum(Held, ts') == Sum(Held, ts) - Held(ts[t]) + Held(th)
            && Sum(Idle, ts') == Sum(Idle, ts) - Idle(ts[t]) + Idle(th)
            && Sum(InLoop, ts') == Sum(InLoop, ts) - InLoop(ts[t]) + InLoop(th)
            && Pool(Left, ts') + Left(ts[t]) == Pool(Left, ts) + Left(th)
  {
    SumUpdate(Held, ts, t, th);
    SumUpdate(Idle, ts, t, th);
    SumUpdate(InLoop, ts, t, th);
    PoolUpdate(Left, ts, t, th);
  }

  /** With nothing queued and nTodo at zero no thread holds a check. */
  lemma NothingPending(s: State)
    requires s.queue == [] && s.nTodo == 0 && s.nTodo == |s.queue| + Sum(Held, s.threads)
    requires forall t :: 0 <= t < |s.threads| ==> ThreadOk(s, t)
    ensures Pool(Left, s.threads) == multiset{}
    ensures forall t :: 0 <= t < |s.threads| ==> !s.threads[t].Working?
  {
    forall t | 0 <= t < |s.threads| ensures !s.threads[t].Working? {
      assert ThreadOk(s, t);
      SumAtLeast(Held, s.threads, t);
    }
    NoWorkersNoPending(s.threads);
  }

  lemma {:induction false} NoWorkersNoPending(ts: seq<Thread>)
    requires forall t :: 0 <= t < |ts| ==> !ts[t].Working?
    ensures Pool(Left, ts) == multiset{}
  {
    if ts != [] {
      NoWorkersNoPending(ts[1..]);
    }
  }

  lemma AllOkSplit(cs: seq<Check>, k: nat)
    requires k <= |cs|
    ensures AllOk(cs) <==> AllOk(cs[..k]) && AllOk(cs[k..])
    ensures multiset(cs) == multiset(cs[..k]) + multiset(cs[k..])
  {
    assert cs == cs[..k] + cs[k..];
  }

  lemma LoopHeadReturn(s: State, t: nat)
    requires AtLoopHead(s, t) && CountersSane(s)
    requires s.queue == [] && !s.stop && t == 0 && s.nTodo == 0
    ensures Inv(LoopHead(s, t))
  {
    var s' := LoopHead(s, t);
    SumsUpdate(s.threads, t, Outside);
    NothingPending(s);
    NoWorkersNoPending(s'.threads);
    assert RoundOk(Round(s.added, s.ran, s.skipped, s.fAllOk));
    forall i | 0 <= i < |s'.threads| ensures ThreadOk(s', i) {
      assert ThreadOk(s, i);
    }
  }

  lemma LoopHeadSleep(s: State, t: nat)
    requires AtLoopHead(s, t) && CountersSane(s)
    requires s.queue == [] && !s.stop && !(t == 0 && s.nTodo == 0)
    ensures Inv(LoopHead(s, t))
  {
    var s' := LoopHead(s, t);
    SumsUpdate(s.threads, t, Sleeping);
    SumsNonNegative(s.threads);
    SameVerdicts(s, s', t);
    forall i | 0 <= i < |s'.threads| ensures ThreadOk(s', i) {
      assert ThreadOk(s, i);
    }
  }

  lemma LoopHeadExit(s: State, t: nat)
    requires AtLoopHead(s, t) && CountersSane(s)
    requires s.stop
    ensures Inv(LoopHead(s, t))
  {
    var s' := LoopHead(s, t);
    SumsUpdate(s.threads, t, Exited);
    SameVerdicts(s, s', t);
    forall i | 0 <= i < |s'.threads| ensures ThreadOk(s', i) {
      assert ThreadOk(s, i);
    }
  }

  /** A thread that holds no checks before and after a step leaves the verdicts as they were. */
  lemma SameVerdicts(s: State, s': State, t: nat)
    requires Verdicts(s) && Conserved(s) && t < |s.threads| && |s'.threads| == |s.threads|
    requires s'.threads == s.threads[t := s'.threads[t]]
    requires !s.threads[t].Working? && !s'.threads[t].Working?
    requires s'.fAllOk == s.fAllOk && s'.queue == s.queue && s'.added == s.added
    requires s'.ran == s.ran && s'.skipped == s.skipped
    ensures Verdicts(s') && Conserved(s')
  {
    SamePool(s.threads, t, s'.threads[t]);
    forall i | 0 <= i < |s.threads| ensures Promising(s.threads[i]) <==> Promising(s'.threads[i]) {}
  }

  lemma SamePool(ts: seq<Thread>, t: nat, th: Thread)
    requires t < |ts| && Left(ts[t]) == Left(th) == multiset{}
    ensures Pool(Left, ts[t := th]) == Pool(Left, ts)
  {
    PoolUpdate(Left, ts, t, th);
    var a, b := Pool(Left, ts), Pool(Left, ts[t := th]);
    assert a == a + multiset{} && b == b + multiset{};
  }

  lemma LoopHeadTake(s: State, t: nat)
    requires AtLoopHead(s, t) && CountersSane(s)
    requires s.queue != [] && !s.stop
    ensures Inv(LoopHead(s, t))
  {
    var s' := LoopHead(s, t);
    SumsUpdate(s.threads, t, s'.threads[t]);
    TakeVerdicts(s, t);
    TakeConserved(s, t);
    forall i | 0 <= i < |s'.threads| ensures ThreadOk(s', i) {
      assert ThreadOk(s, i);
    }
  }

  lemma TakeVerdicts(s: State, t: nat)
    requires AtLoopHead(s, t) && CountersSane(s)
    requires s.queue != [] && !s.stop
    ensures Verdicts(LoopHead(s, t))
  {
    var s' := LoopHead(s, t);
    var w := s'.threads[t];
    AllOkSplit(s.queue, |s'.queue|);
    assert w.batch[0..] == w.batch;
    forall i | 0 <= i < |s.threads| && i != t ensures Promising(s.threads[i]) <==> Promising(s'.threads[i]) {}
    assert Promising(s.threads[t]);
    assert Promising(w) <==> s.fAllOk && AllOk(w.batch);
  }

  lemma TakeConserved(s: State, t: nat)
    requires AtLoopHead(s, t) && CountersSane(s)
    requires s.queue != [] && !s.stop
    ensures Conserved(LoopHead(s, t))
  {
    var s' := LoopHead(s, t);
    var w := s'.threads[t];
    AllOkSplit(s.queue, |s'.queue|);
    assert w.batch[0..] == w.batch;
    PoolUpdate(Left, s.threads, t, w);
    TakeConserves(multiset(s.ran) + multiset(s.skipped), multiset(s'.queue), Left(w),
                  Pool(Left, s.threads), Pool(Left, s'.threads));
  }

  lemma TakeConserves(done: multiset<Check>, rest: multiset<Check>, batch: multiset<Check>,
                      pool: multiset<Check>, pool': multiset<Check>)
    requires pool' + multiset{} == pool + batch
    ensures done + (rest + batch) + pool == done + rest + pool'
  {
    assert pool' == pool' + multiset{};
  }

  lemma LoopHeadKeeps(s: State, t: nat)
    requires AtLoopHead(s, t) && CountersSane(s)
    ensures Inv(LoopHead(s, t))
  {
    if s.stop {
      LoopHeadExit(s, t);
    } else if s.queue != [] {
      LoopHeadTake(s, t);
    } else if t == 0 && s.nTodo == 0 {
      LoopHeadReturn(s, t);
    } else {
      LoopHeadSleep(s, t);
    }
  }

  /** No counter ever goes below zero: whatever a thread is ready to do, it can do. */
  lemma ReadyIsEnabled(s: State, a: Action)
    requires Inv(s) && Ready(s, a)
    ensures Enabled(s, a)
  {
    SumsNonNegative(s.threads);
    if a.Resume? {
      SumAtLeast(Idle, s.threads, a.t);
    }
    if a.Finish? {
      SumAtLeast(Held, s.threads, a.t);
    }
  }

  lemma AddKeeps(s: State, checks: seq<Check>)
    requires Inv(s) && Enabled(s, Add(checks))
    ensures Inv(Next(s, Add(checks)))
  {
    var s' := Next(s, Add(checks));
    AllOkSplit(s'.added, |s.added|);
    AllOkSplit(s'.queue, |s.queue|);
    assert s'.added[..|s.added|] == s.added && s'.added[|s.added|..] == checks;
    assert s'.queue[..|s.queue|] == s.queue && s'.queue[|s.queue|..] == checks;
    forall i | 0 <= i < |s'.threads| ensures ThreadOk(s', i) {
      assert ThreadOk(s, i);
    }
  }

  lemma MoveKeeps(s: State, t: nat, th: Thread)
    requires Inv(s) && t < |s.threads|
    requires (s.threads[t].Outside? && th.Entering? && t == 0) || (s.threads[t].Sleeping? && th.Woken?)
    ensures Inv(s.(threads := s.threads[t := th]))
  {
    var s' := s.(threads := s.threads[t := th]);
    SumsUpdate(s.threads, t, th);
    SameVerdicts(s, s', t);
    forall i | 0 <= i < |s'.threads| ensures ThreadOk(s', i) {
      assert ThreadOk(s, i);
    }
  }

  lemma EnterReady(s: State, t: nat)
    requires Inv(s) && Enabled(s, Enter(t))
    ensures AtLoopHead(s.(nTotal := s.nTotal + 1), t)
  {
    var s' := s.(nTotal := s.nTotal + 1);
    forall i | 0 <= i < |s'.threads| ensures ThreadOk(s', i) {
      assert ThreadOk(s, i);
    }
  }

  lemma ResumeReady(s: State, t: nat)
    requires Inv(s) && Enabled(s, Resume(t))
    ensures AtLoopHead(s.(nIdle := s.nIdle - 1, threads := s.threads[t := Entering]), t)
  {
    var s' := s.(nIdle := s.nIdle - 1, threads := s.threads[t := Entering]);
    SumsUpdate(s.threads, t, Entering);
    SameVerdicts(s, s', t);
    forall i | 0 <= i < |s'.threads| ensures ThreadOk(s', i) {
      assert ThreadOk(s, i);
    }
  }

  lemma ExecuteKeeps(s: State, t: nat)
    requires Inv(s) && Enabled(s, Execute(t))
    ensures Inv(Next(s, Execute(t)))
  {
    var s' := Next(s, Execute(t));
    ExecuteCounted(s, t);
    ExecuteVerdicts(s, t);
    ExecuteConserved(s, t);
    forall i | 0 <= i < |s'.threads| ensures ThreadOk(s', i) {
      ExecuteThread(s, t, i);
    }
  }

  lemma ExecuteCounted(s: State, t: nat)
    requires Counted(s) && Enabled(s, Execute(t))
    ensures Counted(Next(s, Execute(t)))
  {
    var w' := Next(s, Execute(t)).threads[t];
    SumUpdate(Held, s.threads, t, w');
    SumUpdate(Idle, s.threads, t, w');
    SumUpdate(InLoop, s.threads, t, w');
  }

  lemma ExecuteThread(s: State, t: nat, i: nat)
    requires Enabled(s, Execute(t)) && i < |s.threads| && ThreadOk(s, i)
    ensures ThreadOk(Next(s, Execute(t)), i)
  {
    var s' := Next(s, Execute(t));
    assert s.ran <= s'.ran;
    assert s'.ran != s.ran ==> s.threads[t].batch[s.threads[t].next] in s'.ran;
  }

  lemma LeftAfterExecute(w: Thread, w': Thread)
    requires w.Working? && w'.Working? && w'.batch == w.batch && w.next < |w.batch| && w'.next == w.next + 1
    ensures Left(w) == multiset{w.batch[w.next]} + Left(w')
  {
    assert w.batch[w.next..] == [w.batch[w.next]] + w'.batch[w'.next..];
  }

  lemma ExecuteConserved(s: State, t: nat)
    requires Conserved(s) && Enabled(s, Execute(t))
    ensures Conserved(Next(s, Execute(t)))
  {
    var s' := Next(s, Execute(t));
    var w, w' := s.threads[t], s'.threads[t];
    LeftAfterExecute(w, w');
    PoolUpdate(Left, s.threads, t, w');
    ExecuteConserves(s.ran, s.skipped, w.batch[w.next], w.fOk, multiset(s.queue), Left(w'),
                     Pool(Left, s.threads), Pool(Left, s'.threads));
  }

  lemma ExecuteVerdicts(s: State, t: nat)
    requires Verdicts(s) && Enabled(s, Execute(t)) && ThreadOk(s, t)
    ensures Verdicts(Next(s, Execute(t)))
  {
    var s' := Next(s, Execute(t));
    var w, w' := s.threads[t], s'.threads[t];
    var rest := w.batch[w.next..];
    assert rest == [w.batch[w.next]] + w.batch[w.next + 1..];
    AllOkSplit(rest, 1);
    assert rest[..1] == [w.batch[w.next]] && rest[1..] == w'.batch[w'.next..];
    assert Promising(w) <==> Promising(w');
    forall i | 0 <= i < |s.threads| ensures Promising(s.threads[i]) <==> Promising(s'.threads[i]) {}
    assert s.ran <= s'.ran;
    assert SomeFailed(s.ran) ==> SomeFailed(s'.ran);
  }

  lemma ExecuteConserves(ran: seq<Check>, skipped: seq<Check>, c: Check, runs: bool, queue: multiset<Check>,
                         rest: multiset<Check>, pool: multiset<Check>, pool': multiset<Check>)
    requires pool' + (multiset{c} + rest) == pool + rest
    ensures var ran', skipped' := if runs then ran + [c] else ran, if runs then skipped else skipped + [c];
            multiset(ran) + multiset(skipped) + queue + pool ==
            multiset(ran') + multiset(skipped') + queue + pool'
  {
    assert pool == pool' + multiset{c} by {
      assert forall x :: pool'[x] + (multiset{c}[x] + rest[x]) == (pool' + (multiset{c} + rest))[x];
      assert forall x :: (pool + rest)[x] == pool[x] + rest[x];
    }
  }

  lemma FinishReady(s: State, t: nat)
    requires Inv(s) && Enabled(s, Finish(t))
    ensures AtLoopHead(Settle(s, t), t)
  {
    var s' := Settle(s, t);
    FinishCounted(s, t);
    FinishVerdicts(s, t);
    FinishConserved(s, t);
    forall i | 0 <= i < |s'.threads| ensures ThreadOk(s', i) {
      assert ThreadOk(s, i);
    }
  }

  lemma FinishCounted(s: State, t: nat)
    requires Counted(s) && Enabled(s, Finish(t))
    ensures var s' := Settle(s, t);
            && s'.nTodo == |s'.queue| + Sum(Held, s'.threads)
            && s'.nIdle == Sum(Idle, s'.threads)
            && s'.nTotal - Sum(InLoop, s'.threads) - 1 == s.nTotal - Sum(InLoop, s.threads)
  {
    var mid := s.threads[t := Entering];
    SumUpdate(Held, s.threads, t, Entering);
    SumUpdate(Idle, s.threads, t, Entering);
    SumUpdate(InLoop, s.threads, t, Entering);
    SumUpdate(Held, mid, 0, Woken);
    SumUpdate(Idle, mid, 0, Woken);
    SumUpdate(InLoop, mid, 0, Woken);
  }

  lemma FinishVerdicts(s: State, t: nat)
    requires Verdicts(s) && Enabled(s, Finish(t)) && ThreadOk(s, t)
    ensures Verdicts(Settle(s, t))
  {
    var s' := Settle(s, t);
    var w := s.threads[t];
    assert w.batch[w.next..] == [];
    forall i | 0 <= i < |s.threads| && i != t ensures Promising(s'.threads[i]) <==> Promising(s.threads[i]) {}
    assert Promising(s'.threads[t]) && (Promising(w) <==> w.fOk);
  }

  lemma FinishConserved(s: State, t: nat)
    requires Conserved(s) && Enabled(s, Finish(t))
    ensures Conserved(Settle(s, t))
  {
    var w := s.threads[t];
    assert w.batch[w.next..] == [];
    SamePool(s.threads, t, Entering);
    var mid := s.threads[t := Entering];
    if mid[0].Sleeping? {
      SamePool(mid, 0, Woken);
    }
  }

  lemma EnterKeeps(s: State, t: nat)
    requires Inv(s) && Enabled(s, Enter(t))
    ensures Inv(Next(s, Enter(t)))
  {
    hide Counted, Verdicts, Conserved;
    EnterReady(s, t);
    LoopHeadKeeps(s.(nTotal := s.nTotal + 1), t);
  }

  lemma ResumeKeeps(s: State, t: nat)
    requires Inv(s) && Enabled(s, Resume(t))
    ensures Inv(Next(s, Resume(t)))
  {
    hide Counted, Verdicts, Conserved;
    ResumeReady(s, t);
    LoopHeadKeeps(s.(nIdle := s.nIdle - 1, threads := s.threads[t := Entering]), t);
  }

  lemma FinishKeeps(s: State, t: nat)
    requires Inv(s) && Enabled(s, Finish(t))
    ensures Inv(Next(s, Finish(t)))
  {
    hide Counted, Verdicts, Conserved;
    FinishReady(s, t);
    LoopHeadKeeps(Settle(s, t), t);
  }

  lemma StopKeeps(s: State)
    requires Inv(s)
    ensures Inv(s.(stop := true))
  {
    forall i | 0 <= i < |s.threads| ensures ThreadOk(s.(stop := true), i) {
      assert ThreadOk(s, i);
    }
  }

  /** Every step of every thread keeps the invariant. */
  lemma NextKeeps(s: State, a: Action)
    requires Inv(s) && Enabled(s, a)
    ensures Inv(Next(s, a))
  {
    match a
    case Add(checks) => AddKeeps(s, checks);
    case CallWait => MoveKeeps(s, 0, Entering);
    case Enter(t) => EnterKeeps(s, t);
    case Wake(t) => MoveKeeps(s, t, Woken);
    case Resume(t) => ResumeKeeps(s, t);
    case Execute(t) => ExecuteKeeps(s, t);
    case Finish(t) => FinishKeeps(s, t);
    case RequestStop => StopKeeps(s);
  }

  // ---------------------------------------------------------------- whole runs

  lemma {:induction false} InitSums(n: nat)
    ensures var ts := seq(n, _ => Entering);
            Sum(Held, ts) == Sum(Idle, ts) == Sum(InLoop, ts) == 0
  {
    if n > 0 {
      assert seq(n, _ => Entering)[1..] == seq(n - 1, _ => Entering);
      InitSums(n - 1);
    }
  }

  lemma InitHolds(batchSize: nat, workers: nat)
    ensures Inv(Init(batchSize, workers))
  {
    var s := Init(batchSize, workers);
    InitSums(workers);
    assert s.threads[1..] == seq(workers, _ => Entering);
    NoWorkersNoPending(s.threads);
  }

  lemma {:induction false} RunKeeps(s: State, run: seq<Action>)
    requires Inv(s) && Legal(s, run)
    ensures Inv(Run(s, run))
    decreases |run|
  {
    if run != [] {
      NextKeeps(s, run[0]);
      RunKeeps(Next(s, run[0]), run[1..]);
    }
  }

  /** Everything handed to Add during a run, in order. */
  function Submitted(run: seq<Action>): seq<Check> {
    if run == [] then [] else Payload(run[0]) + Submitted(run[1..])
  }

  function Collected(rounds: seq<Round>): seq<Check> {
    if rounds == [] then [] else Collected(rounds[..|rounds| - 1]) + rounds[|rounds| - 1].added
  }

  function Payload(a: Action): seq<Check> { if a.Add? then a.checks else [] }

  lemma RoundsSplitAStep(s: State, a: Action)
    requires Enabled(s, a)
    ensures var s' := Next(s, a);
            Collected(s'.rounds) + s'.added == Collected(s.rounds) + s.added + Payload(a)
  {
    hide Collected;
    var s' := Next(s, a);
    if s'.rounds != s.rounds {
      CollectedOneMore(s.rounds, s'.rounds[|s.rounds|]);
    }
  }

  lemma CollectedOneMore(rounds: seq<Round>, r: Round)
    ensures Collected(rounds + [r]) == Collected(rounds) + r.added
  {
    assert (rounds + [r])[..|rounds|] == rounds;
  }

  /** The finished rounds and the current one split what was submitted, in order. */
  lemma {:induction false} RoundsSplitTheRun(s: State, run: seq<Action>)
    requires Legal(s, run)
    ensures var s' := Run(s, run);
            Collected(s'.rounds) + s'.added == Collected(s.rounds) + s.added + Submitted(run)
    decreases |run|
  {
    if run != [] {
      RoundsSplitAStep(s, run[0]);
      RoundsSplitTheRun(Next(s, run[0]), run[1..]);
    }
  }

  /** The main result: in every interleaving, each finished Wait returned the conjunction of
      exactly the checks added since the Wait before it; every one of those checks was called
      at most once, and one was left uncalled only after another of the round had failed. */
  lemma EveryWaitIsTheConjunction(batchSize: nat, workers: nat, run: seq<Action>, i: nat)
    requires Legal(Init(batchSize, workers), run)
    requires i < |Run(Init(batchSize, workers), run).rounds|
    ensures var s := Run(Init(batchSize, workers), run);
            var r := s.rounds[i];
            && (r.result <==> AllOk(r.added))
            && multiset(r.added) == multiset(r.ran) + multiset(r.skipped)
            && (r.skipped != [] ==> SomeFailed(r.ran))
            && Collected(s.rounds) + s.added == Submitted(run)
  {
    InitHolds(batchSize, workers);
    RunKeeps(Init(batchSize, workers), run);
    RoundsSplitTheRun(Init(batchSize, workers), run);
    assert RoundOk(Run(Init(batchSize, workers), run).rounds[i]);
  }

  // ---------------------------------------------------------------- the master is never stuck

  predicate InWait(s: State) {
    s.threads != [] && !s.threads[0].Outside? && !s.threads[0].Exited?
  }

  /** A thread that holds a batch can go on with it. */
  lemma {:induction false} HolderExists(ts: seq<Thread>) returns (t: nat)
    requires Sum(Held, ts) > 0
    ensures t < |ts| && ts[t].Working?
  {
    if ts[0].Working? {
      t := 0;
    } else {
      t := HolderExists(ts[1..]);
      t := t + 1;
    }
  }

  /** While the master sleeps un-notified some worker holds a batch, and the worker that
      completes the last batch notifies it. */
  lemma SleepingMasterHasHelp(s: State) returns (t: nat)
    requires Inv(s) && s.threads[0].Sleeping?
    ensures 0 < t < |s.threads| && s.threads[t].Working? && s.nTodo > 0
    ensures Enabled(s, Execute(t)) || Enabled(s, Finish(t))
    ensures Enabled(s, Finish(t)) && s.nTodo == |s.threads[t].batch| ==>
              Next(s, Finish(t)).threads[0].Woken?
  {
    t := HolderExists(s.threads);
    assert ThreadOk(s, t);
    if s.threads[t].next < |s.threads[t].batch| {
      ReadyIsEnabled(s, Execute(t));
    } else {
      ReadyIsEnabled(s, Finish(t));
    }
  }

  predicate Productive(a: Action) { a.Enter? || a.Resume? || a.Execute? || a.Finish? }

  function Weight(th: Thread): int {
    match th
    case Entering => 3
    case Woken => 1
    case Working(batch, next, _) => if next <= |batch| then 2 + |batch| - next else 2
    case _ => 0
  }

  /** Steps still to be made: a queued check weighs more than one in a thread's hands. */
  function Work(s: State): int { 4 * |s.queue| + Sum(Weight, s.threads) }

  lemma WorkNonNegative(s: State)
    ensures Work(s) >= 0
  {
    SumNonNegative(Weight, s.threads);
  }

  lemma LoopHeadWork(s: State, t: nat)
    requires t < |s.threads| && CountersSane(s) && s.threads[t].Entering?
    ensures Work(LoopHead(s, t)) <= Work(s) - 3
  {
    SumUpdate(Weight, s.threads, t, LoopHead(s, t).threads[t]);
  }

  lemma ResumeWork(s: State, t: nat)
    requires Enabled(s, Resume(t))
    ensures Work(Next(s, Resume(t))) < Work(s)
  {
    SumUpdate(Weight, s.threads, t, Entering);
    LoopHeadWork(s.(nIdle := s.nIdle - 1, threads := s.threads[t := Entering]), t);
  }

  lemma FinishWork(s: State, t: nat)
    requires Enabled(s, Finish(t))
    ensures Work(Next(s, Finish(t))) < Work(s)
  {
    SumUpdate(Weight, s.threads, t, Entering);
    SumUpdate(Weight, s.threads[t := Entering], 0, Woken);
    LoopHeadWork(Settle(s, t), t);
  }

  /** Every step other than a spurious wake-up or a new request leaves less to do. */
  lemma ProductiveStepsDecreaseWork(s: State, a: Action)
    requires Enabled(s, a) && Productive(a)
    ensures Work(Next(s, a)) < Work(s)
  {
    match a
    case Enter(t) => LoopHeadWork(s.(nTotal := s.nTotal + 1), t);
    case Resume(t) => ResumeWork(s, t);
    case Execute(t) => SumUpdate(Weight, s.threads, t, Next(s, a).threads[t]);
    case Finish(t) => FinishWork(s, t);
  }

  /** Until the master has left Wait, some thread can make a productive step. */
  lemma SomeoneCanStep(s: State) returns (a: Action)
    requires Inv(s) && InWait(s)
    ensures Productive(a) && Enabled(s, a)
  {
    match s.threads[0] {
      case Entering => a := Enter(0);
      case Woken => a := Resume(0);
      case Working(batch, next, _) =>
        assert ThreadOk(s, 0);
        a := if next < |batch| then Execute(0) else Finish(0);
      case Sleeping =>
        var t := SleepingMasterHasHelp(s);
        a := if s.threads[t].next < |s.threads[t].batch| then Execute(t) else Finish(t);
    }
    ReadyIsEnabled(s, a);
  }

  predicate AllProductive(run: seq<Action>) { forall i :: 0 <= i < |run| ==> Productive(run[i]) }

  /** However the threads are scheduled, only so many productive steps fit in. */
  lemma {:induction false} ProductiveRunsAreShort(s: State, run: seq<Action>)
    requires Inv(s) && Legal(s, run) && AllProductive(run)
    ensures |run| + Work(Run(s, run)) <= Work(s)
    decreases |run|
  {
    if run != [] {
      NextKeeps(s, run[0]);
      ProductiveStepsDecreaseWork(s, run[0]);
      ProductiveRunsAreShort(Next(s, run[0]), run[1..]);
    }
  }

  /** The master leaves Wait with a finished round; nothing but a stop makes it leave otherwise. */
  lemma LeavingMakesARound(s: State, a: Action)
    requires Enabled(s, a) && Productive(a)
    ensures var s' := Next(s, a);
            && s'.stop == s.stop
            && |s'.rounds| == |s.rounds| + (if InWait(s) && s'.threads[0].Outside? then 1 else 0)
  {
  }

  /** From every reachable state inside Wait the threads can bring the master out again; unless a
      stop was requested, Wait has then returned the verdict of exactly one round. */
  lemma {:induction false} WaitFinishes(s: State) returns (run: seq<Action>)
    requires Inv(s)
    ensures Legal(s, run) && AllProductive(run) && |run| <= Work(s)
    ensures !InWait(Run(s, run)) && Run(s, run).stop == s.stop
    ensures !s.stop ==> Run(s, run).threads != [] && Run(s, run).threads[0].Outside?
    ensures !s.stop ==> |Run(s, run).rounds| == |s.rounds| + if InWait(s) then 1 else 0
    decreases Work(s)
  {
    run := [];
    WorkNonNegative(s);
    if InWait(s) {
      var a := SomeoneCanStep(s);
      NextKeeps(s, a);
      ProductiveStepsDecreaseWork(s, a);
      WorkNonNegative(Next(s, a));
      LeavingMakesARound(s, a);
      var rest := WaitFinishes(Next(s, a));
      run := [a] + rest;
      assert run[1..] == rest;
      assert ThreadOk(Next(s, a), 0);
    } else {
      assert ThreadOk(s, 0);
    }
  }

  /** A schedule that cannot be extended by a productive step has brought the master out. */
  lemma StalledMeansReturned(s: State, run: seq<Action>)
    requires Inv(s) && Legal(s, run)
    requires forall a :: Productive(a) ==> !Enabled(Run(s, run), a)
    ensures !InWait(Run(s, run))
  {
    RunKeeps(s, run);
    if InWait(Run(s, run)) {
      var a := SomeoneCanStep(Run(s, run));
    }
  }
}
